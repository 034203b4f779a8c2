/** What the maps of the message-queue probes hold, said by the history of probes alone. */
module MqRecords {
  import opened Mq
  import opened MqRuns
  import opened Options
  import opened Words

  // ---------------------------------------------------------------- where a sender reads from

  /** A load by the thread. */
  predicate IsLoad(h: History, j: int, pid: int)
    requires 0 <= j < |h|
  {
    h[j].pid == pid && h[j].call.LoadMsg?
  }

  /**
   * Between `c` and `n` the last load of the thread read from `src`; as long as there is none, a null pointer stands
   * for it.
   */
  ghost predicate ReadsFrom(h: History, c: nat, n: nat, pid: int, src: U64)
    requires n <= |h|
  {
    || (exists j :: c < j < n && IsLoad(h, j, pid) && h[j].call.src == src
                    && forall i :: j < i < n ==> !IsLoad(h, i, pid))
    || (src == 0 && forall i :: c < i < n ==> !IsLoad(h, i, pid))
  }

  /** At `j` the thread leaves a load that read from the buffer of its send call at `c`. */
  ghost predicate LoadsBuffer(h: History, c: nat, j: nat, pid: int)
    requires c < j < |h| && h[c].call.TimedSend?
  {
    h[j].pid == pid && h[j].call.LoadMsgExit? && ReadsFrom(h, c, j, pid, h[c].call.uMsgPtr)
  }

  /** Between `c` and `n` the last such load returned the block `k`; before the first there is none. */
  ghost predicate HasKey(h: History, c: nat, n: nat, pid: int, k: U64)
    requires n <= |h| && c < |h| && h[c].call.TimedSend?
  {
    || (exists j :: c < j < n && LoadsBuffer(h, c, j, pid) && h[j].call.ret == k
                    && forall i :: j < i < n ==> !LoadsBuffer(h, c, i, pid))
    || (k == 0 && forall i :: c < i < n ==> !LoadsBuffer(h, c, i, pid))
  }

  lemma ReadsFromOne(h: History, c: nat, n: nat, pid: int, a: U64, b: U64)
    requires n <= |h| && ReadsFrom(h, c, n, pid, a) && ReadsFrom(h, c, n, pid, b)
    ensures a == b
  {
  }

  /** The record of an open send call holds what the call was given, where it reads from and which block it got. */
  ghost predicate SendRecord(h: History, n: nat, pid: int)
    requires n <= |h| && pid in Run(h, n).sendMsg1
  {
    var rec, c := Run(h, n).sendMsg1[pid], Track(h, n).send1[pid];
    && c < n && h[c].pid == pid && FromSend(h, rec, c) && LastSend(h, c, n, pid)
    && ReadsFrom(h, c, n, pid, rec.src) && HasKey(h, c, n, pid, rec.keyMsgPtr)
  }

  lemma ReadsFromNext(h: History, c: nat, n: nat, pid: int, src: U64)
    requires c < n < |h|
    ensures IsLoad(h, n, pid) ==> ReadsFrom(h, c, n + 1, pid, h[n].call.src)
    ensures !IsLoad(h, n, pid) && ReadsFrom(h, c, n, pid, src) ==> ReadsFrom(h, c, n + 1, pid, src)
  {
    if !IsLoad(h, n, pid) && ReadsFrom(h, c, n, pid, src) {
      if j :| c < j < n && IsLoad(h, j, pid) && h[j].call.src == src && forall i :: j < i < n ==> !IsLoad(h, i, pid) {
        assert forall i :: j < i < n + 1 ==> !IsLoad(h, i, pid);
      }
    }
  }

  lemma HasKeyNext(h: History, c: nat, n: nat, pid: int, k: U64)
    requires c < n < |h| && h[c].call.TimedSend?
    ensures LoadsBuffer(h, c, n, pid) ==> HasKey(h, c, n + 1, pid, h[n].call.ret)
    ensures !LoadsBuffer(h, c, n, pid) && HasKey(h, c, n, pid, k) ==> HasKey(h, c, n + 1, pid, k)
  {
    if !LoadsBuffer(h, c, n, pid) && HasKey(h, c, n, pid, k) {
      if j :| (c < j < n && LoadsBuffer(h, c, j, pid) && h[j].call.ret == k
               && forall i :: j < i < n ==> !LoadsBuffer(h, c, i, pid)) {
        assert forall i :: j < i < n + 1 ==> !LoadsBuffer(h, c, i, pid);
      }
    }
  }

  /** What a step does to the record of an open send call. */
  lemma SendAfter(o: Origins, st: State, p: Probe, i: nat, pid: int)
    requires Tracks(o, st) && pid in Step(st, p).sendMsg1
    ensures var rec, c := Step(st, p).sendMsg1[pid], TrackStep(o, st, p, i).send1[pid];
      if p.pid == pid && p.call.TimedSend? && p.call.stored then
        c == i && rec == SendEvent(pid, 0, p.call.mqdes, p.call.msgLen, p.call.msgPrio, p.call.uMsgPtr, 0, p.now, 0)
      else
        && pid in st.sendMsg1 && c == o.send1[pid]
        && rec == if p.pid != pid then st.sendMsg1[pid]
                  else if p.call.LoadMsg? then st.sendMsg1[pid].(src := p.call.src)
                  else if p.call.LoadMsgExit? && LoadsForSend(st, pid) then st.sendMsg1[pid].(keyMsgPtr := p.call.ret)
                  else st.sendMsg1[pid]
  {
    match p.call
    case TimedSend(_, _, _, _, _) =>
    case LoadMsg(_) =>
    case LoadMsgExit(_, _) =>
    case TimedSendExit =>
    case TimedReceive(_, _, _) =>
    case StoreMsg(_, _, _, _) =>
    case TimedReceiveExit(_) =>
  }

  lemma SendRecordEntered(h: History, n: nat)
    requires n < |h| && h[n].call.TimedSend? && h[n].call.stored
    ensures h[n].pid in Run(h, n + 1).sendMsg1 && SendRecord(h, n + 1, h[n].pid)
  {
    SendAfter(Track(h, n), Run(h, n), h[n], n, h[n].pid);
  }

  lemma SendRecordNext(h: History, n: nat, pid: int)
    requires n < |h| && pid in Run(h, n + 1).sendMsg1 && pid in Run(h, n).sendMsg1 && SendRecord(h, n, pid)
    requires h[n].pid == pid ==> !(h[n].call.TimedSend? && h[n].call.stored)
    ensures SendRecord(h, n + 1, pid)
  {
    var st, o, p := Run(h, n), Track(h, n), h[n];
    var rec, c := st.sendMsg1[pid], o.send1[pid];
    SendAfter(o, st, p, n, pid);
    ReadsFromNext(h, c, n, pid, rec.src);
    HasKeyNext(h, c, n, pid, rec.keyMsgPtr);
    if p.pid == pid && p.call.LoadMsgExit? {
      BufferIff(h, n, pid);
    }
  }

  /** The test of the handler tells whether the load was from the buffer of the send call. */
  lemma BufferIff(h: History, n: nat, pid: int)
    requires n < |h| && pid in Run(h, n).sendMsg1 && SendRecord(h, n, pid)
    requires h[n].pid == pid && h[n].call.LoadMsgExit?
    ensures LoadsForSend(Run(h, n), pid) <==> LoadsBuffer(h, Track(h, n).send1[pid], n, pid)
  {
    var rec, c := Run(h, n).sendMsg1[pid], Track(h, n).send1[pid];
    if LoadsBuffer(h, c, n, pid) {
      ReadsFromOne(h, c, n, pid, rec.src, h[c].call.uMsgPtr);
    }
  }

  lemma {:induction false} SendRecorded(h: History, n: nat, pid: int)
    requires n <= |h| && pid in Run(h, n).sendMsg1
    ensures SendRecord(h, n, pid)
    decreases n
  {
    if n > 0 {
      var p := h[n - 1];
      SendAfter(Track(h, n - 1), Run(h, n - 1), p, n - 1, pid);
      if p.pid == pid && p.call.TimedSend? && p.call.stored {
        SendRecordEntered(h, n - 1);
      } else {
        SendRecorded(h, n - 1, pid);
        SendRecordNext(h, n - 1, pid);
      }
    }
  }

  /** A message is put under a key exactly when a thread in a recorded send call leaves a load from its buffer. */
  lemma InsertsIff(h: History, i: nat, k: U64)
    requires i < |h|
    ensures Inserts(h, i, k) <==>
      && h[i].call.LoadMsgExit? && h[i].call.ret == k && h[i].call.stored
      && h[i].pid in Run(h, i).sendMsg1
      && var c := Track(h, i).send1[h[i].pid]; c < i && h[c].call.TimedSend? && LoadsBuffer(h, c, i, h[i].pid)
  {
    if h[i].call.LoadMsgExit? && h[i].pid in Run(h, i).sendMsg1 {
      SendRecorded(h, i, h[i].pid);
      BufferIff(h, i, h[i].pid);
    }
  }

  /** Every message that waits, and every message of an event, was loaded from the buffer of its send call. */
  lemma SentFromBuffer(h: History, n: nat, k: U64, rec: SendEvent, s: Sent)
    requires n <= |h| && SentBy(h, n, k, rec, s)
    ensures h[s.load].call.ret == k && LoadsBuffer(h, s.call, s.load, h[s.call].pid)
  {
    var pid := rec.sendPid;
    InsertsIff(h, s.load, k);
    SendRecorded(h, s.load, pid);
    var c := Track(h, s.load).send1[pid];
    assert !(c < s.call) && !(s.call < c);
  }

  lemma EventFromBuffer(h: History, n: nat, i: nat)
    requires n <= |h| && Monotone(h) && NonNull(h) && i < |Run(h, n).rb|
    ensures var pv := Track(h, n).events[i];
      && pv.sent.call < pv.sent.load < |h| && h[pv.sent.call].call.TimedSend?
      && h[pv.sent.call].pid == Run(h, n).rb[i].sendPid
      && LoadsBuffer(h, pv.sent.call, pv.sent.load, h[pv.sent.call].pid)
  {
    RunTracked(h, n);
    var e, pv := Run(h, n).rb[i], Track(h, n).events[i];
    assert Explains(h, e, pv);
    var k := h[pv.received.store.value].call.msg;
    var rec :| SentBy(h, pv.leave, k, rec, pv.sent) && SameSender(e, rec);
    SentFromBuffer(h, pv.leave, k, rec, pv.sent);
  }

  // ---------------------------------------------------------------- what the maps hold

  /** A recorded entry of a send call by the thread. */
  predicate EntersSend(h: History, c: int, pid: int)
    requires 0 <= c < |h|
  {
    h[c].pid == pid && h[c].call.TimedSend? && h[c].call.stored
  }

  /** The thread leaves a send call, and the message that it loaded still waits. */
  predicate LeavesSend(h: History, j: int, pid: int)
    requires 0 <= j < |h|
  {
    && h[j].pid == pid && h[j].call.TimedSendExit?
    && pid in Run(h, j).sendMsg1 && Run(h, j).sendMsg1[pid].keyMsgPtr in Run(h, j).sendMsg2
  }

  /** The thread entered a send call at `c` and has not left it since. */
  ghost predicate SendSince(h: History, c: nat, n: nat, pid: int)
    requires n <= |h|
  {
    c < n && EntersSend(h, c, pid) && forall j :: c < j < n ==> !LeavesSend(h, j, pid)
  }

  lemma SendSinceNext(h: History, n: nat, n': nat, pid: int)
    requires n' == n + 1 <= |h|
    ensures (exists c :: SendSince(h, c, n', pid)) <==>
      EntersSend(h, n, pid) || (!LeavesSend(h, n, pid) && exists c :: SendSince(h, c, n, pid))
  {
    if c: nat :| SendSince(h, c, n', pid) {
      assert c < n ==> SendSince(h, c, n, pid);
    }
    if EntersSend(h, n, pid) {
      assert SendSince(h, n, n', pid);
    } else if !LeavesSend(h, n, pid) {
      if c: nat :| SendSince(h, c, n, pid) {
        assert SendSince(h, c, n', pid);
      }
    }
  }

  /** A send call stays recorded until the thread leaves it while its message waits. */
  lemma {:induction false} SendOpenIff(h: History, n: nat, pid: int)
    requires n <= |h|
    ensures pid in Run(h, n).sendMsg1 <==> exists c :: SendSince(h, c, n, pid)
    decreases n
  {
    if n > 0 {
      SendOpenIff(h, n - 1, pid);
      SendSinceNext(h, n - 1, n, pid);
      SendMapAfter(Run(h, n - 1), h[n - 1], pid);
    }
  }

  lemma SendMapAfter(st: State, p: Probe, pid: int)
    ensures pid in Step(st, p).sendMsg1 <==>
      || (p.pid == pid && p.call.TimedSend? && p.call.stored)
      || (pid in st.sendMsg1
          && !(p.pid == pid && p.call.TimedSendExit? && st.sendMsg1[pid].keyMsgPtr in st.sendMsg2))
  {
    match p.call
    case TimedSend(_, _, _, _, _) =>
    case LoadMsg(_) =>
    case LoadMsgExit(_, _) =>
    case TimedSendExit =>
    case TimedReceive(_, _, _) =>
    case StoreMsg(_, _, _, _) =>
    case TimedReceiveExit(_) =>
  }

  /** At `j` a receive call of the thread ends with an event, about the message under key `k`. */
  predicate Delivers(h: History, j: int, pid: int, k: U64)
    requires 0 <= j < |h|
  {
    && h[j].pid == pid && h[j].call.TimedReceiveExit? && h[j].call.reserved
    && pid in Run(h, j).rcvMsg1 && Run(h, j).rcvMsg1[pid].keyMsgPtr == k && k in Run(h, j).sendMsg2
  }

  ghost predicate SomeDelivers(h: History, j: int, k: U64)
    requires 0 <= j < |h|
  {
    Delivers(h, j, h[j].pid, k)
  }

  /** The message was put under key `k` at `i`, and there was no event about it since. */
  ghost predicate WaitsSince(h: History, i: nat, n: nat, k: U64)
    requires n <= |h|
  {
    i < n && Inserts(h, i, k) && forall j :: i < j < n ==> !SomeDelivers(h, j, k)
  }

  lemma WaitsSinceNext(h: History, n: nat, n': nat, k: U64)
    requires n' == n + 1 <= |h|
    ensures (exists i :: WaitsSince(h, i, n', k)) <==>
      Inserts(h, n, k) || (!SomeDelivers(h, n, k) && exists i :: WaitsSince(h, i, n, k))
  {
    if i: nat :| WaitsSince(h, i, n', k) {
      assert i < n ==> WaitsSince(h, i, n, k);
    }
    if Inserts(h, n, k) {
      assert WaitsSince(h, n, n', k);
    } else if !SomeDelivers(h, n, k) {
      if i: nat :| WaitsSince(h, i, n, k) {
        assert WaitsSince(h, i, n', k);
      }
    }
  }

  /** A message waits from its insertion until an event about it. */
  lemma {:induction false} MessageWaitsIff(h: History, n: nat, k: U64)
    requires n <= |h|
    ensures k in Run(h, n).sendMsg2 <==> exists i :: WaitsSince(h, i, n, k)
    decreases n
  {
    if n > 0 {
      MessageWaitsIff(h, n - 1, k);
      WaitsSinceNext(h, n - 1, n, k);
      StepMaps(Run(h, n - 1), h[n - 1]);
    }
  }

  ghost predicate EndsReceive(h: History, j: int, pid: int)
    requires 0 <= j < |h|
  {
    pid in Run(h, j).rcvMsg1 && Delivers(h, j, pid, Run(h, j).rcvMsg1[pid].keyMsgPtr)
  }

  /** The thread entered a receive call at `c`, and it did not end with an event since. */
  ghost predicate ReceiveSince(h: History, c: nat, n: nat, pid: int)
    requires n <= |h|
  {
    c < n && Receives(h, c) && h[c].pid == pid && forall j :: c < j < n ==> !EndsReceive(h, j, pid)
  }

  lemma ReceiveSinceNext(h: History, n: nat, n': nat, pid: int)
    requires n' == n + 1 <= |h|
    ensures (exists c :: ReceiveSince(h, c, n', pid)) <==>
      || (Receives(h, n) && h[n].pid == pid)
      || (!EndsReceive(h, n, pid) && exists c :: ReceiveSince(h, c, n, pid))
  {
    if c: nat :| ReceiveSince(h, c, n', pid) {
      assert c < n ==> ReceiveSince(h, c, n, pid);
    }
    if Receives(h, n) && h[n].pid == pid {
      assert ReceiveSince(h, n, n', pid);
    } else if !EndsReceive(h, n, pid) {
      if c: nat :| ReceiveSince(h, c, n, pid) {
        assert ReceiveSince(h, c, n', pid);
      }
    }
  }

  /** A receive call stays recorded until it ends with an event. */
  lemma {:induction false} ReceiveOpenIff(h: History, n: nat, pid: int)
    requires n <= |h|
    ensures pid in Run(h, n).rcvMsg1 <==> exists c :: ReceiveSince(h, c, n, pid)
    decreases n
  {
    if n > 0 {
      ReceiveOpenIff(h, n - 1, pid);
      ReceiveSinceNext(h, n - 1, n, pid);
      StepMaps(Run(h, n - 1), h[n - 1]);
    }
  }

  lemma {:induction false} ReceivesTracked(h: History, n: nat)
    requires n <= |h|
    ensures Rcv1Tracked(h, n)
  {
    if n > 0 {
      ReceivesTracked(h, n - 1);
      Rcv1Step(h, n - 1);
    }
  }

  /** A key is stored for a receive call exactly when a waiting message is copied to the buffer of that call. */
  lemma StoresIff(h: History, i: nat)
    requires i < |h|
    ensures StoresForReceive(Run(h, i), h[i]) <==>
      && h[i].call.StoreMsg? && h[i].call.msg in Run(h, i).sendMsg2 && h[i].pid in Run(h, i).rcvMsg1
      && var c := Track(h, i).rcv1[h[i].pid].call; c < i && Receives(h, c) && h[i].call.dest == h[c].call.uMsgPtr
  {
    ReceivesTracked(h, i);
    RcvPids(h, i);
    if h[i].pid in Run(h, i).rcvMsg1 {
      var rec, r := Run(h, i).rcvMsg1[h[i].pid], Track(h, i).rcv1[h[i].pid];
      assert ReceivedBy(h, i, h[i].pid, rec, r);
    }
  }

  lemma {:induction false} RcvPids(h: History, n: nat)
    requires n <= |h|
    ensures forall pid :: pid in Run(h, n).rcvMsg1 ==> Run(h, n).rcvMsg1[pid].rcvPid == pid
  {
    if n > 0 {
      RcvPids(h, n - 1);
      StepMaps(Run(h, n - 1), h[n - 1]);
    }
  }

  /**
   * A probe adds an event exactly when a recorded receive call is left, the ring buffer has room, a key was stored
   * for the call, and the message under that key still waits.
   */
  lemma EventIff(h: History, n: nat)
    requires n < |h| && Monotone(h) && NonNull(h)
    ensures Run(h, n + 1).rb != Run(h, n).rb <==>
      && h[n].call.TimedReceiveExit? && h[n].call.reserved && h[n].pid in Run(h, n).rcvMsg1
      && var store := Track(h, n).rcv1[h[n].pid].store;
         store.Some? && store.value < n && h[store.value].call.StoreMsg?
         && h[store.value].call.msg in Run(h, n).sendMsg2
  {
    StepMaps(Run(h, n), h[n]);
    RunConsistent(h, n);
    ReceivesTracked(h, n);
    if h[n].pid in Run(h, n).rcvMsg1 {
      assert ReceivedBy(h, n, h[n].pid, Run(h, n).rcvMsg1[h[n].pid], Track(h, n).rcv1[h[n].pid]);
    }
  }

  // ---------------------------------------------------------------- whole records

  /** The copy of the sender's record that waits under a key is that of a load from the sender's buffer. */
  lemma {:induction false} WaitingRecord(h: History, n: nat, k: U64)
    requires n <= |h| && k in Run(h, n).sendMsg2
    ensures var rec := Run(h, n).sendMsg2[k]; rec.keyMsgPtr == k && rec.src == rec.uMsgPtr
    decreases n
  {
    if n > 0 {
      StepMaps(Run(h, n - 1), h[n - 1]);
      if k in Run(h, n - 1).sendMsg2 {
        WaitingRecord(h, n - 1, k);
      }
    }
  }

  /**
   * The record of an open receive call holds what the call was given, and the destination, priority and length of the
   * last copy that was stored for it.
   */
  lemma {:induction false} ReceiveRecord(h: History, n: nat, pid: int)
    requires n <= |h| && pid in Run(h, n).rcvMsg1
    ensures var rec, r := Run(h, n).rcvMsg1[pid], Track(h, n).rcv1[pid];
      && r.call < n && Receives(h, r.call) && rec.rcvPid == pid == h[r.call].pid && rec.rcvExitTime == 0
      && rec.mqdes == h[r.call].call.mqdes && rec.uMsgPtr == h[r.call].call.uMsgPtr
      && rec.rcvEnterTime == h[r.call].now
      && match r.store
         case None => rec.keyMsgPtr == 0 && rec.dest == 0 && rec.msgPrio == 0 && rec.msgLen == 0
         case Some(m) =>
           && m < n && h[m].call.StoreMsg? && rec.keyMsgPtr == h[m].call.msg && rec.dest == h[m].call.dest
           && rec.msgPrio == h[m].call.mType && rec.msgLen == h[m].call.mTs
    decreases n
  {
    if n > 0 {
      ReceiveAfter(Track(h, n - 1), Run(h, n - 1), h[n - 1], n - 1, pid);
      if !(h[n - 1].pid == pid && Receives(h, n - 1)) {
        ReceiveRecord(h, n - 1, pid);
      }
    }
  }
}
