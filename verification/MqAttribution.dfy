/** Whether the events of the message-queue probes are about what happened, and when they are not. */
module MqAttribution {
  import opened Mq
  import opened MqRuns
  import opened Options
  import opened Words

  // ---------------------------------------------------------------- what happened

  /** A load, by any thread and for any purpose, that returns the block `k`. */
  predicate Fills(h: History, j: nat, k: U64)
    requires j < |h|
  {
    h[j].call.LoadMsgExit? && h[j].call.ret == k
  }

  /** Calls that enter or leave the sending of a message. */
  predicate BoundsSend(c: Call) { c.TimedSend? || c.TimedSendExit? }

  predicate BoundsReceive(c: Call) { c.TimedReceive? || c.TimedReceiveExit? }

  /** One message on its way: the send call, the load that filled its block, the receive call and the copy out. */
  datatype Transfer = Transfer(send: nat, load: nat, receive: nat, store: nat)

  /** At `n` the thread of the call at `i` is still in that call. */
  ghost predicate InSend(h: History, i: nat, n: nat)
    requires i < n <= |h|
  {
    h[i].call.TimedSend? && forall j :: i < j < n && h[j].pid == h[i].pid ==> !BoundsSend(h[j].call)
  }

  ghost predicate InReceive(h: History, i: nat, n: nat)
    requires i < n <= |h|
  {
    h[i].call.TimedReceive? && forall j :: i < j < n && h[j].pid == h[i].pid ==> !BoundsReceive(h[j].call)
  }

  /**
   * The receive call that thread `pid` leaves at `n` got the message `t`: its last copy to user space was from a
   * block that was last filled in the send call. The maps of the probes play no part in this.
   */
  ghost predicate Delivered(h: History, n: nat, pid: int, t: Transfer)
    requires n <= |h|
  {
    && t.send < t.load < t.store < n && t.receive < t.store
    && h[t.receive].pid == pid && InReceive(h, t.receive, n)
    && h[t.store].pid == pid && h[t.store].call.StoreMsg?
    && (forall j :: t.store < j < n && h[j].pid == pid ==> !h[j].call.StoreMsg?)
    && Fills(h, t.load, h[t.store].call.msg)
    && (forall j :: t.load < j < t.store ==> !Fills(h, j, h[t.store].call.msg))
    && h[t.send].pid == h[t.load].pid && InSend(h, t.send, t.load)
  }

  /** At most one message is delivered. */
  lemma DeliveredOnce(h: History, n: nat, pid: int, t: Transfer, t': Transfer)
    requires n <= |h| && Delivered(h, n, pid, t) && Delivered(h, n, pid, t')
    ensures t == t'
  {
    assert t.receive == t'.receive;
    assert t.store == t'.store;
    assert t.load == t'.load;
  }

  // ---------------------------------------------------------------- attribution

  /** What the probes take the event to be about. */
  function Claimed(pv: Provenance): Transfer
    requires pv.received.store.Some?
  {
    Transfer(pv.sent.call, pv.sent.load, pv.received.call, pv.received.store.value)
  }

  /** The probes recorded every part of the message: each of the four insertions and updates took place. */
  ghost predicate Recorded(h: History, t: Transfer)
    requires t.send < |h| && t.load < |h| && t.receive < |h| && t.store < |h| && h[t.store].call.StoreMsg?
  {
    && h[t.send].call.TimedSend? && h[t.send].call.stored
    && Inserts(h, t.load, h[t.store].call.msg)
    && Receives(h, t.receive)
    && StoresForReceive(Run(h, t.store), h[t.store])
  }

  /** The block is not inserted again between the copy to user space and `n`. */
  ghost predicate KeyKept(h: History, t: Transfer, n: nat)
    requires t.store < n <= |h| && h[t.store].call.StoreMsg?
  {
    forall j :: t.store < j < n ==> !Inserts(h, j, h[t.store].call.msg)
  }

  /** The last insertion before `n` is the last fill before `m`, if that one inserts and no later one follows. */
  lemma SameLoad(h: History, k: U64, a: nat, b: nat, m: nat, n: nat)
    requires a < n <= |h| && b < m < n && h[m].call.StoreMsg?
    requires Inserts(h, a, k) && forall j :: a < j < n ==> !Inserts(h, j, k)
    requires Inserts(h, b, k) && forall j :: b < j < m ==> !Fills(h, j, k)
    requires forall j :: m < j < n ==> !Inserts(h, j, k)
    ensures a == b
  {
    assert Fills(h, a, k);
  }

  lemma ClaimHolds(h: History, e: MqEvent, pv: Provenance, t: Transfer)
    requires Explains(h, e, pv)
    requires Delivered(h, pv.leave, e.rcvPid, t) && Recorded(h, t) && KeyKept(h, t, pv.leave)
    ensures Claimed(pv) == t
  {
    var c, k := Claimed(pv), h[t.store].call.msg;
    assert c.receive == t.receive;
    assert c.store == t.store;
    SameLoad(h, k, c.load, t.load, t.store, pv.leave);
    assert c.send == t.send;
  }

  /**
   * The event is about the message that was delivered exactly when a message was delivered, every part of it was
   * recorded, and its block was not inserted again between the copy to user space and the exit.
   */
  lemma AttributedIff(h: History, e: MqEvent, pv: Provenance)
    requires Explains(h, e, pv)
    ensures Delivered(h, pv.leave, e.rcvPid, Claimed(pv)) <==>
      exists t :: Delivered(h, pv.leave, e.rcvPid, t) && Recorded(h, t) && KeyKept(h, t, pv.leave)
  {
    if t :| Delivered(h, pv.leave, e.rcvPid, t) && Recorded(h, t) && KeyKept(h, t, pv.leave) {
      ClaimHolds(h, e, pv, t);
    }
    if Delivered(h, pv.leave, e.rcvPid, Claimed(pv)) {
      assert Recorded(h, Claimed(pv)) && KeyKept(h, Claimed(pv), pv.leave);
    }
  }

  // ---------------------------------------------------------------- exit times

  /** The key stays in the map until the message is received. */
  lemma {:induction false} KeyStays(h: History, load: nat, j: nat, n: nat, k: U64)
    requires load < j <= n <= |h| && k in Run(h, n).sendMsg2
    requires forall i :: load < i < n ==> !Inserts(h, i, k)
    ensures k in Run(h, j).sendMsg2
    decreases n
  {
    if j < n {
      StepMaps(Run(h, n - 1), h[n - 1]);
      assert !Inserts(h, n - 1, k);
      KeyStays(h, load, j, n - 1, k);
    }
  }

  /** An event is reported exactly when some thread's exit wrote into its message's record before it was received. */
  lemma ReportedIff(h: History, e: MqEvent, pv: Provenance)
    requires AfterBoot(h) && Explains(h, e, pv)
    ensures ReportOf(e).Some? <==>
      exists j :: pv.sent.load < j < pv.leave && Stamps(h, j, h[pv.received.store.value].call.msg)
  {
  }

  /** The thread of the send call at `s` leaves that call at `x`. */
  ghost predicate Leaves(h: History, s: nat, x: nat) {
    s < x < |h| && h[x].pid == h[s].pid && h[x].call.TimedSendExit? && InSend(h, s, x)
  }

  /** When leaving its send call at `x`, the thread still has the message's key. */
  ghost predicate StillKeyed(h: History, x: nat, k: U64)
    requires x < |h|
  {
    h[x].pid in Run(h, x).sendMsg1 && Run(h, x).sendMsg1[h[x].pid].keyMsgPtr == k
  }

  /**
   * The exit time in an event is that of the event's own send call exactly when the sender left this call between
   * its load and the receiver's exit, still had the key then, and no thread wrote an exit time afterwards.
   */
  lemma OwnExitIff(h: History, e: MqEvent, pv: Provenance)
    requires Explains(h, e, pv)
    ensures
      var k := h[pv.received.store.value].call.msg;
      (pv.sent.leave.Some? && Leaves(h, pv.sent.call, pv.sent.leave.value)) <==>
      (exists x: nat :: Leaves(h, pv.sent.call, x) && pv.sent.load < x < pv.leave && StillKeyed(h, x, k)
         && NoStamp(h, x, pv.leave, k))
  {
    var k := h[pv.received.store.value].call.msg;
    if x: nat :| (
      && Leaves(h, pv.sent.call, x) && pv.sent.load < x < pv.leave
      && StillKeyed(h, x, k) && NoStamp(h, x, pv.leave, k)) {
      KeyStays(h, pv.sent.load, x, pv.leave, k);
      assert Stamps(h, x, k);
      assert pv.sent.leave == Some(x);
    }
    if pv.sent.leave.Some? && Leaves(h, pv.sent.call, pv.sent.leave.value) {
      assert StillKeyed(h, pv.sent.leave.value, k);
    }
  }

  // ---------------------------------------------------------------- runs in which events mislead

  /** What the theorems ask of a run. */
  ghost predicate Sound(h: History) { Monotone(h) && NonNull(h) && AfterBoot(h) }

  lemma RunNext(h: History, n: nat, st: State, p: Probe)
    requires n < |h| && Run(h, n) == st && h[n] == p
    ensures Run(h, n + 1) == Step(st, p)
  {
  }

  lemma RunEmits(h: History, n: nat, st: State, p: Probe)
    requires n < |h| && Run(h, n) == st && h[n] == p && Emits(st, p)
    ensures Run(h, n + 1).rb == st.rb + [EventOf(st, p)]
  {
    StepMaps(st, p);
  }

  /** The message of thread 1 under key 9, before and after its exit. */
  const SENT := SendEvent(1, 9, 5, 8, 0, 100, 100, 10, 0)
  const LEFT := SENT.(sendExitTime := 13)

  /** What thread 2 has received. */
  const STORED := RcvEvent(2, 9, 5, 8, 0, 200, 200, 14, 0)

  /** Thread 1 sends a message in block 9. */
  predicate Sends(h: History) {
    && |h| >= 3
    && h[0] == Probe(1, 10, TimedSend(5, 100, 8, 0, true))
    && h[1] == Probe(1, 11, LoadMsg(100))
    && h[2] == Probe(1, 12, LoadMsgExit(9, true))
  }

  lemma AfterSend(h: History)
    requires Sends(h)
    ensures Run(h, 3) == State(map[1 := SENT], map[9 := SENT], map[], [])
  {
    var a := SendEvent(1, 0, 5, 8, 0, 100, 0, 10, 0);
    RunNext(h, 0, INITIAL, h[0]);
    RunNext(h, 1, State(map[1 := a], map[], map[], []), h[1]);
    RunNext(h, 2, State(map[1 := a.(src := 100)], map[], map[], []), h[2]);
  }

  /** Thread 1 leaves its send call, and thread 2 copies the message. */
  predicate SendsAndStores(h: History) {
    && Sends(h) && |h| >= 6
    && h[3] == Probe(1, 13, TimedSendExit)
    && h[4] == Probe(2, 14, TimedReceive(5, 200, true))
    && h[5] == Probe(2, 15, StoreMsg(200, 9, 0, 8))
  }

  lemma AfterStore(h: History)
    requires SendsAndStores(h)
    ensures Run(h, 6) == State(map[], map[9 := LEFT], map[2 := STORED], [])
  {
    AfterSend(h);
    RunNext(h, 3, State(map[1 := SENT], map[9 := SENT], map[], []), h[3]);
    RunNext(h, 4, State(map[], map[9 := LEFT], map[], []), h[4]);
    RunNext(h, 5, State(map[], map[9 := LEFT], map[2 := RcvEvent(2, 0, 5, 0, 0, 200, 0, 14, 0)], []), h[5]);
  }

  /** Thread 2 has copied the message in block 9, which then goes to a message of thread 3. */
  function Reuse(): History {
    [Probe(1, 10, TimedSend(5, 100, 8, 0, true)),
     Probe(1, 11, LoadMsg(100)),
     Probe(1, 12, LoadMsgExit(9, true)),
     Probe(1, 13, TimedSendExit),
     Probe(2, 14, TimedReceive(5, 200, true)),
     Probe(2, 15, StoreMsg(200, 9, 0, 8)),
     Probe(3, 16, TimedSend(6, 300, 4, 0, true)),
     Probe(3, 17, LoadMsg(300)),
     Probe(3, 18, LoadMsgExit(9, true)),
     Probe(2, 19, TimedReceiveExit(true))]
  }

  lemma ReuseRun()
    ensures Run(Reuse(), |Reuse()|).rb == [MqEvent(3, 2, 6, 4, 0, 16, 0, 14, 19)]
  {
    var h := Reuse();
    AfterStore(h);
    var b := SendEvent(3, 0, 6, 4, 0, 300, 0, 16, 0);
    var b' := SendEvent(3, 9, 6, 4, 0, 300, 300, 16, 0);
    RunNext(h, 6, State(map[], map[9 := LEFT], map[2 := STORED], []), h[6]);
    RunNext(h, 7, State(map[3 := b], map[9 := LEFT], map[2 := STORED], []), h[7]);
    RunNext(h, 8, State(map[3 := b.(src := 300)], map[9 := LEFT], map[2 := STORED], []), h[8]);
    RunNext(h, 9, State(map[3 := b'], map[9 := b'], map[2 := STORED], []), h[9]);
  }

  lemma ReuseSound()
    ensures Sound(Reuse())
  {
  }

  lemma ReuseHistory()
    ensures Delivered(Reuse(), 9, 2, Transfer(0, 2, 4, 5))
  {
  }

  /** The event names thread 3, whose send call began after thread 2 had its message, which is from thread 1. */
  lemma MisattributionPossible()
    ensures var h := Reuse();
      && Sound(h)
      && Run(h, |h|).rb == [MqEvent(3, 2, 6, 4, 0, 16, 0, 14, 19)]
      && Delivered(h, 9, 2, Transfer(0, 2, 4, 5)) && h[0].pid == 1
  {
    ReuseSound();
    ReuseHistory();
    ReuseRun();
  }

  /** The first event is lost; thread 3 then sends in block 9 without being recorded. */
  function StaleKey(): History {
    [Probe(1, 10, TimedSend(5, 100, 8, 0, true)),
     Probe(1, 11, LoadMsg(100)),
     Probe(1, 12, LoadMsgExit(9, true)),
     Probe(1, 13, TimedSendExit),
     Probe(2, 14, TimedReceive(5, 200, true)),
     Probe(2, 15, StoreMsg(200, 9, 0, 8)),
     Probe(2, 16, TimedReceiveExit(false)),
     Probe(3, 17, TimedSend(6, 300, 4, 0, false)),
     Probe(3, 18, LoadMsg(300)),
     Probe(3, 19, LoadMsgExit(9, true)),
     Probe(2, 20, TimedReceive(6, 400, true)),
     Probe(2, 21, StoreMsg(400, 9, 0, 4)),
     Probe(2, 22, TimedReceiveExit(true))]
  }

  lemma StaleKeyRun()
    ensures Run(StaleKey(), |StaleKey()|).rb == [MqEvent(1, 2, 5, 8, 0, 10, 13, 20, 22)]
  {
    var h := StaleKey();
    AfterStore(h);
    var st := State(map[], map[9 := LEFT], map[2 := STORED], []);
    RunNext(h, 6, st, h[6]);
    RunNext(h, 7, st, h[7]);
    RunNext(h, 8, st, h[8]);
    RunNext(h, 9, st, h[9]);
    RunNext(h, 10, st, h[10]);
    RunNext(h, 11, State(map[], map[9 := LEFT], map[2 := RcvEvent(2, 0, 6, 0, 0, 400, 0, 20, 0)], []), h[11]);
    RunNext(h, 12, State(map[], map[9 := LEFT], map[2 := RcvEvent(2, 9, 6, 4, 0, 400, 400, 20, 0)], []), h[12]);
  }

  lemma StaleKeyHistory()
    ensures Sound(StaleKey()) && Delivered(StaleKey(), 12, 2, Transfer(7, 9, 10, 11))
  {
  }

  /** The event names thread 1 and its queue, although the key was not inserted again: the message is from thread 3. */
  lemma StaleKeyMisleads()
    ensures var h := StaleKey();
      && Sound(h)
      && Run(h, |h|).rb == [MqEvent(1, 2, 5, 8, 0, 10, 13, 20, 22)]
      && Delivered(h, 12, 2, Transfer(7, 9, 10, 11)) && h[7].pid == 3
  {
    StaleKeyHistory();
    StaleKeyRun();
  }

  /** Thread 1 is late: its message has been received and its block belongs to thread 3 when it leaves its call. */
  function LateExit(): History {
    [Probe(1, 10, TimedSend(5, 100, 8, 0, true)),
     Probe(1, 11, LoadMsg(100)),
     Probe(1, 12, LoadMsgExit(9, true)),
     Probe(2, 13, TimedReceive(5, 200, true)),
     Probe(2, 14, StoreMsg(200, 9, 0, 8)),
     Probe(2, 15, TimedReceiveExit(true)),
     Probe(3, 16, TimedSend(6, 300, 4, 0, true)),
     Probe(3, 17, LoadMsg(300)),
     Probe(3, 18, LoadMsgExit(9, true)),
     Probe(1, 19, TimedSendExit),
     Probe(2, 20, TimedReceive(6, 400, true)),
     Probe(2, 21, StoreMsg(400, 9, 0, 4)),
     Probe(2, 22, TimedReceiveExit(true))]
  }

  const RECEIVED := MqEvent(1, 2, 5, 8, 0, 10, 0, 13, 15)

  lemma LateExitReceived()
    ensures Run(LateExit(), 6) == State(map[1 := SENT], map[], map[], [RECEIVED])
  {
    var h := LateExit();
    AfterSend(h);
    RunNext(h, 3, State(map[1 := SENT], map[9 := SENT], map[], []), h[3]);
    RunNext(h, 4, State(map[1 := SENT], map[9 := SENT], map[2 := RcvEvent(2, 0, 5, 0, 0, 200, 0, 13, 0)], []), h[4]);
    RunNext(h, 5, State(map[1 := SENT], map[9 := SENT], map[2 := RcvEvent(2, 9, 5, 8, 0, 200, 200, 13, 0)], []), h[5]);
  }

  lemma LateExitStamped()
    ensures var b := SendEvent(3, 9, 6, 4, 0, 300, 300, 16, 0);
      Run(LateExit(), 10) == State(map[3 := b], map[9 := b.(sendExitTime := 19)], map[], [RECEIVED])
  {
    var h := LateExit();
    LateExitReceived();
    var b := SendEvent(3, 0, 6, 4, 0, 300, 0, 16, 0);
    var b' := SendEvent(3, 9, 6, 4, 0, 300, 300, 16, 0);
    RunNext(h, 6, State(map[1 := SENT], map[], map[], [RECEIVED]), h[6]);
    RunNext(h, 7, State(map[1 := SENT, 3 := b], map[], map[], [RECEIVED]), h[7]);
    RunNext(h, 8, State(map[1 := SENT, 3 := b.(src := 300)], map[], map[], [RECEIVED]), h[8]);
    RunNext(h, 9, State(map[1 := SENT, 3 := b'], map[9 := b'], map[], [RECEIVED]), h[9]);
  }

  lemma LateExitEntered()
    ensures var b := SendEvent(3, 9, 6, 4, 0, 300, 300, 16, 0);
      Run(LateExit(), 11) ==
      State(map[3 := b], map[9 := b.(sendExitTime := 19)], map[2 := RcvEvent(2, 0, 6, 0, 0, 400, 0, 20, 0)], [RECEIVED])
  {
    var h := LateExit();
    LateExitStamped();
    var b := SendEvent(3, 9, 6, 4, 0, 300, 300, 16, 0);
    RunNext(h, 10, State(map[3 := b], map[9 := b.(sendExitTime := 19)], map[], [RECEIVED]), h[10]);
  }

  lemma LateExitCopied()
    ensures var b := SendEvent(3, 9, 6, 4, 0, 300, 300, 16, 0);
      Run(LateExit(), 12) ==
      State(map[3 := b], map[9 := b.(sendExitTime := 19)], map[2 := RcvEvent(2, 9, 6, 4, 0, 400, 400, 20, 0)],
            [RECEIVED])
  {
    var h := LateExit();
    LateExitEntered();
    var b := SendEvent(3, 9, 6, 4, 0, 300, 300, 16, 0);
    var entered := RcvEvent(2, 0, 6, 0, 0, 400, 0, 20, 0);
    RunNext(h, 11, State(map[3 := b], map[9 := b.(sendExitTime := 19)], map[2 := entered], [RECEIVED]), h[11]);
  }

  lemma LateExitRun()
    ensures Run(LateExit(), |LateExit()|).rb == [RECEIVED, MqEvent(3, 2, 6, 4, 0, 16, 19, 20, 22)]
  {
    var h := LateExit();
    LateExitCopied();
    var b := SendEvent(3, 9, 6, 4, 0, 300, 300, 16, 0);
    var copied := RcvEvent(2, 9, 6, 4, 0, 400, 400, 20, 0);
    var st := State(map[3 := b], map[9 := b.(sendExitTime := 19)], map[2 := copied], [RECEIVED]);
    LateExitEmits(h, st, b, copied);
  }

  lemma LateExitEmits(h: History, st: State, b: SendEvent, copied: RcvEvent)
    requires |h| == 13 && Run(h, 12) == st && h[12] == Probe(2, 22, TimedReceiveExit(true)) && st.rb == [RECEIVED]
    requires st.sendMsg2 == map[9 := b.(sendExitTime := 19)] && b == SendEvent(3, 9, 6, 4, 0, 300, 300, 16, 0)
    requires st.rcvMsg1 == map[2 := copied] && copied == RcvEvent(2, 9, 6, 4, 0, 400, 400, 20, 0)
    ensures Run(h, |h|).rb == [RECEIVED, MqEvent(3, 2, 6, 4, 0, 16, 19, 20, 22)]
  {
    RunEmits(h, 12, st, h[12]);
  }

  lemma LateExitHistory()
    ensures Delivered(LateExit(), 12, 2, Transfer(6, 8, 10, 11)) && forall x :: !Leaves(LateExit(), 6, x)
  {
  }

  lemma LateExitSound()
    ensures Sound(LateExit())
  {
  }

  /** The second event is about the right message, but its send exit is that of thread 1: thread 3 never leaves. */
  lemma ForeignExitTime()
    ensures var h := LateExit();
      && Sound(h)
      && Run(h, |h|).rb == [RECEIVED, MqEvent(3, 2, 6, 4, 0, 16, 19, 20, 22)]
      && Delivered(h, 12, 2, Transfer(6, 8, 10, 11)) && h[6].pid == 3
      && ReportOf(Run(h, |h|).rb[1]).Some? && forall x :: !Leaves(h, 6, x)
  {
    LateExitSound();
    LateExitHistory();
    LateExitRun();
  }
}
