/** What holds on every run of the message-queue probes, whatever the interleaving. */
module MqRuns {
  import opened Mq
  import opened Options
  import opened Words

  type History = seq<Probe>

  /** The state after the first `n` probes of a history. */
  function Run(h: History, n: nat): State
    requires n <= |h|
  {
    if n == 0 then INITIAL else Step(Run(h, n - 1), h[n - 1])
  }

  /** Clock readings do not decrease. */
  ghost predicate Monotone(h: History) { forall i, j :: 0 <= i < j < |h| ==> h[i].now <= h[j].now }

  /** load_msg does not return a null pointer. */
  ghost predicate NonNull(h: History) { forall i :: 0 <= i < |h| && h[i].call.LoadMsgExit? ==> h[i].call.ret != 0 }

  function Clock(h: History, n: nat): U64
    requires n <= |h|
  {
    if n == 0 then 0 else h[n - 1].now
  }

  // ---------------------------------------------------------------- times and keys

  ghost predicate SentOrdered(rec: SendEvent, now: U64) {
    && rec.sendEnterTime <= now
    && (rec.sendExitTime == 0 || rec.sendEnterTime <= rec.sendExitTime <= now)
  }

  ghost predicate EventOrdered(e: MqEvent) {
    && e.sendEnterTime <= e.rcvExitTime && e.rcvEnterTime <= e.rcvExitTime
    && (e.sendExitTime == 0 || e.sendEnterTime <= e.sendExitTime <= e.rcvExitTime)
  }

  ghost predicate SendsConsistent(sends: map<int, SendEvent>, now: U64) {
    forall p :: p in sends ==> sends[p].sendPid == p && sends[p].sendExitTime == 0 && SentOrdered(sends[p], now)
  }

  ghost predicate MessagesConsistent(messages: map<U64, SendEvent>, now: U64) {
    forall k :: k in messages ==> k != 0 && messages[k].keyMsgPtr == k && SentOrdered(messages[k], now)
  }

  ghost predicate ReceivesConsistent(receives: map<int, RcvEvent>, now: U64) {
    forall p :: p in receives ==> receives[p].rcvPid == p && receives[p].rcvEnterTime <= now
  }

  /** Records lie under their own keys, and their times are in order. */
  ghost predicate Consistent(st: State, now: U64) {
    && SendsConsistent(st.sendMsg1, now) && MessagesConsistent(st.sendMsg2, now) && ReceivesConsistent(st.rcvMsg1, now)
    && forall i :: 0 <= i < |st.rb| ==> EventOrdered(st.rb[i])
  }

  lemma MessagesStayConsistent(st: State, now: U64, p: Probe)
    requires Consistent(st, now) && now <= p.now
    requires p.call.LoadMsgExit? ==> p.call.ret != 0
    ensures MessagesConsistent(Step(st, p).sendMsg2, p.now)
  {
    var messages := Step(st, p).sendMsg2;
    forall k | k in messages ensures k != 0 && messages[k].keyMsgPtr == k && SentOrdered(messages[k], p.now) {
      assert k in st.sendMsg2 ==> SentOrdered(st.sendMsg2[k], now);
    }
  }

  lemma StepConsistent(st: State, now: U64, p: Probe)
    requires Consistent(st, now) && now <= p.now
    requires p.call.LoadMsgExit? ==> p.call.ret != 0
    ensures Consistent(Step(st, p), p.now)
  {
    MessagesStayConsistent(st, now, p);
  }

  lemma {:induction false} RunConsistent(h: History, n: nat)
    requires n <= |h| && Monotone(h) && NonNull(h)
    ensures Consistent(Run(h, n), Clock(h, n))
  {
    if n > 0 {
      RunConsistent(h, n - 1);
      StepConsistent(Run(h, n - 1), Clock(h, n - 1), h[n - 1]);
    }
  }

  /** Every event that a run submits has its times in order. */
  lemma EventsOrdered(h: History, n: nat, i: nat)
    requires n <= |h| && Monotone(h) && NonNull(h) && i < |Run(h, n).rb|
    ensures EventOrdered(Run(h, n).rb[i])
  {
    RunConsistent(h, n);
  }

  lemma ReportTrue(e: MqEvent)
    requires EventOrdered(e) && ReportOf(e).Some?
    ensures var r := ReportOf(e).value;
      && r.sendDelay * 1000000.0 == (e.sendExitTime - e.sendEnterTime) as real
      && r.rcvDelay * 1000000.0 == (e.rcvExitTime - e.rcvEnterTime) as real
      && r.sendDelay >= 0.0 && r.rcvDelay >= 0.0 && r.delay >= 0.0
      && r.delay ==
         (e.rcvExitTime - e.sendEnterTime) as real / 1000000.0
         + if e.sendEnterTime < e.rcvEnterTime then 0.0 else r.sendDelay + r.rcvDelay
  {
  }

  /**
   * No delay wraps around: what is printed for an event are the true differences of its times. When the send
   * call began no earlier than the receive call, both their delays are added to the whole.
   */
  lemma DelaysDoNotWrap(h: History, n: nat, i: nat)
    requires n <= |h| && Monotone(h) && NonNull(h) && i < |Run(h, n).rb|
    ensures var e := Run(h, n).rb[i]; ReportOf(e).Some? ==>
      var r := ReportOf(e).value;
      && r.sendDelay * 1000000.0 == (e.sendExitTime - e.sendEnterTime) as real
      && r.rcvDelay * 1000000.0 == (e.rcvExitTime - e.rcvEnterTime) as real
      && r.sendDelay >= 0.0 && r.rcvDelay >= 0.0 && r.delay >= 0.0
      && r.delay ==
         (e.rcvExitTime - e.sendEnterTime) as real / 1000000.0
         + if e.sendEnterTime < e.rcvEnterTime then 0.0 else r.sendDelay + r.rcvDelay
  {
    EventsOrdered(h, n, i);
    if ReportOf(Run(h, n).rb[i]).Some? {
      ReportTrue(Run(h, n).rb[i]);
    }
  }

  /** Probes run after boot: every clock reading is positive. */
  ghost predicate AfterBoot(h: History) { forall i :: 0 <= i < |h| ==> h[i].now > 0 }

  // ---------------------------------------------------------------- conservation

  /** The probe at `i` puts a message under key `k`. */
  predicate Inserts(h: History, i: nat, k: U64)
    requires i < |h|
  {
    InsertsNow(Run(h, i), h[i]) && h[i].call.ret == k
  }

  /** The probe at `j` writes an exit time into the record under key `k`. */
  predicate Stamps(h: History, j: nat, k: U64)
    requires j < |h|
  {
    StampsNow(Run(h, j), h[j]) && Run(h, j).sendMsg1[h[j].pid].keyMsgPtr == k
  }

  function Insertions(h: History, n: nat): nat
    requires n <= |h|
  {
    if n == 0 then 0
    else Insertions(h, n - 1) + if h[n - 1].call.LoadMsgExit? && Inserts(h, n - 1, h[n - 1].call.ret) then 1 else 0
  }

  /** Insertions that overwrite a message that was not received yet. */
  function LostMessages(h: History, n: nat): nat
    requires n <= |h|
  {
    if n == 0 then 0
    else
      LostMessages(h, n - 1)
      + if h[n - 1].call.LoadMsgExit? && Inserts(h, n - 1, h[n - 1].call.ret)
           && h[n - 1].call.ret in Run(h, n - 1).sendMsg2 then 1 else 0
  }

  predicate Receives(h: History, i: nat)
    requires i < |h|
  {
    h[i].call.TimedReceive? && h[i].call.stored
  }

  function Receipts(h: History, n: nat): nat
    requires n <= |h|
  {
    if n == 0 then 0 else Receipts(h, n - 1) + if Receives(h, n - 1) then 1 else 0
  }

  /** Entries of a receive call by a thread whose previous receive call was not closed by an event. */
  function AbandonedReceipts(h: History, n: nat): nat
    requires n <= |h|
  {
    if n == 0 then 0
    else AbandonedReceipts(h, n - 1) + if Receives(h, n - 1) && h[n - 1].pid in Run(h, n - 1).rcvMsg1 then 1 else 0
  }

  lemma MapSizes<K, V>(m: map<K, V>, k: K, v: V)
    ensures |m[k := v]| == |m| + if k in m then 0 else 1
    ensures |m - {k}| == |m| - if k in m then 1 else 0
  {
    assert m[k := v].Keys == m.Keys + {k};
    assert (m - {k}).Keys == m.Keys - {k};
    assert |m[k := v]| == |m[k := v].Keys| && |m| == |m.Keys| && |m - {k}| == |(m - {k}).Keys|;
  }

  predicate InsertsNow(st: State, p: Probe) { p.call.LoadMsgExit? && p.call.stored && LoadsForSend(st, p.pid) }

  predicate StampsNow(st: State, p: Probe) {
    p.call.TimedSendExit? && p.pid in st.sendMsg1 && st.sendMsg1[p.pid].keyMsgPtr in st.sendMsg2
  }

  function NextMessages(st: State, p: Probe): map<U64, SendEvent> {
    if InsertsNow(st, p) then st.sendMsg2[p.call.ret := st.sendMsg1[p.pid].(keyMsgPtr := p.call.ret)]
    else if StampsNow(st, p) then
      var key := st.sendMsg1[p.pid].keyMsgPtr;
      st.sendMsg2[key := st.sendMsg2[key].(sendExitTime := p.now)]
    else if Emits(st, p) then st.sendMsg2 - {st.rcvMsg1[p.pid].keyMsgPtr}
    else st.sendMsg2
  }

  function NextReceives(st: State, p: Probe): map<int, RcvEvent> {
    if p.call.TimedReceive? && p.call.stored then
      st.rcvMsg1[p.pid := RcvEvent(p.pid, 0, p.call.mqdes, 0, 0, p.call.uMsgPtr, 0, p.now, 0)]
    else if StoresForReceive(st, p) then
      st.rcvMsg1[p.pid := st.rcvMsg1[p.pid].(
        keyMsgPtr := p.call.msg, dest := p.call.dest, msgPrio := p.call.mType, msgLen := p.call.mTs)]
    else if Emits(st, p) then st.rcvMsg1 - {p.pid}
    else st.rcvMsg1
  }

  lemma StepMaps(st: State, p: Probe)
    ensures Step(st, p).sendMsg2 == NextMessages(st, p)
    ensures Step(st, p).rcvMsg1 == NextReceives(st, p)
    ensures Step(st, p).rb == st.rb + if Emits(st, p) then [EventOf(st, p)] else []
  {
    match p.call
    case TimedSend(_, _, _, _, _) =>
    case LoadMsg(_) =>
    case LoadMsgExit(_, _) =>
    case TimedSendExit =>
    case TimedReceive(_, _, _) =>
    case StoreMsg(_, _, _, _) =>
    case TimedReceiveExit(_) =>
  }

  lemma MessagesSize(st: State, p: Probe)
    ensures |NextMessages(st, p)| == |st.sendMsg2| - (if Emits(st, p) then 1 else 0)
      + (if InsertsNow(st, p) && p.call.ret !in st.sendMsg2 then 1 else 0)
  {
    if InsertsNow(st, p) {
      MapSizes(st.sendMsg2, p.call.ret, st.sendMsg1[p.pid].(keyMsgPtr := p.call.ret));
    } else if StampsNow(st, p) {
      var key := st.sendMsg1[p.pid].keyMsgPtr;
      MapSizes(st.sendMsg2, key, st.sendMsg2[key].(sendExitTime := p.now));
    } else if Emits(st, p) {
      var key := st.rcvMsg1[p.pid].keyMsgPtr;
      MapSizes(st.sendMsg2, key, st.sendMsg2[key]);
    }
  }

  lemma ReceivesSize(st: State, p: Probe)
    ensures |NextReceives(st, p)| == |st.rcvMsg1| - (if Emits(st, p) then 1 else 0)
      + (if p.call.TimedReceive? && p.call.stored && p.pid !in st.rcvMsg1 then 1 else 0)
  {
    if p.pid in st.rcvMsg1 {
      var stays := !StoresForReceive(st, p) && !(p.call.TimedReceive? && p.call.stored);
      MapSizes(st.rcvMsg1, p.pid, if stays then st.rcvMsg1[p.pid] else NextReceives(st, p)[p.pid]);
    } else if p.call.TimedReceive? && p.call.stored {
      MapSizes(st.rcvMsg1, p.pid, NextReceives(st, p)[p.pid]);
    }
  }

  /**
   * Every message inserted is submitted in an event, still waiting or overwritten; every receive call
   * entered is closed by an event, still open or abandoned.
   */
  lemma {:induction false} Conservation(h: History, n: nat)
    requires n <= |h|
    ensures Insertions(h, n) == |Run(h, n).rb| + |Run(h, n).sendMsg2| + LostMessages(h, n)
    ensures Receipts(h, n) == |Run(h, n).rb| + |Run(h, n).rcvMsg1| + AbandonedReceipts(h, n)
  {
    if n > 0 {
      Conservation(h, n - 1);
      StepMaps(Run(h, n - 1), h[n - 1]);
      MessagesSize(Run(h, n - 1), h[n - 1]);
      ReceivesSize(Run(h, n - 1), h[n - 1]);
    }
  }

  // ---------------------------------------------------------------- provenance

  /** Where a message record comes from: the send call, the load that keyed it and the last exit that stamped it. */
  datatype Sent = Sent(call: nat, load: nat, leave: Option<nat>)

  /** Where a receive record comes from: the receive call and the last store that set its key. */
  datatype Received = Received(call: nat, store: Option<nat>)

  datatype Provenance = Provenance(sent: Sent, received: Received, leave: nat)

  datatype Origins = Origins(send1: map<int, nat>, send2: map<U64, Sent>, rcv1: map<int, Received>,
      events: seq<Provenance>)

  ghost predicate Tracks(o: Origins, st: State) {
    && o.send1.Keys == st.sendMsg1.Keys && o.send2.Keys == st.sendMsg2.Keys
    && o.rcv1.Keys == st.rcvMsg1.Keys && |o.events| == |st.rb|
  }

  /** Follows the records through step `i`, which is probe `p`. */
  ghost function TrackStep(o: Origins, st: State, p: Probe, i: nat): (r: Origins)
    requires Tracks(o, st)
    ensures Tracks(r, Step(st, p))
  {
    match p.call
    case TimedSend(_, _, _, _, stored) => if stored then o.(send1 := o.send1[p.pid := i]) else o
    case LoadMsg(_) => o
    case LoadMsgExit(ret, stored) =>
      if LoadsForSend(st, p.pid) && stored then o.(send2 := o.send2[ret := Sent(o.send1[p.pid], i, None)]) else o
    case TimedSendExit =>
      if p.pid in st.sendMsg1 && st.sendMsg1[p.pid].keyMsgPtr in st.sendMsg2 then
        var key := st.sendMsg1[p.pid].keyMsgPtr;
        o.(send1 := o.send1 - {p.pid}, send2 := o.send2[key := o.send2[key].(leave := Some(i))])
      else o
    case TimedReceive(_, _, stored) => if stored then o.(rcv1 := o.rcv1[p.pid := Received(i, None)]) else o
    case StoreMsg(_, _, _, _) =>
      if StoresForReceive(st, p) then o.(rcv1 := o.rcv1[p.pid := o.rcv1[p.pid].(store := Some(i))]) else o
    case TimedReceiveExit(_) =>
      if Emits(st, p) then
        var key := st.rcvMsg1[p.pid].keyMsgPtr;
        Origins(o.send1, o.send2 - {key}, o.rcv1 - {p.pid}, o.events + [Provenance(o.send2[key], o.rcv1[p.pid], i)])
      else o
  }

  ghost function Track(h: History, n: nat): (o: Origins)
    requires n <= |h|
    ensures Tracks(o, Run(h, n))
  {
    if n == 0 then Origins(map[], map[], map[], [])
    else TrackStep(Track(h, n - 1), Run(h, n - 1), h[n - 1], n - 1)
  }

  /** The record holds what the send call at `i` was given. */
  ghost predicate FromSend(h: History, rec: SendEvent, i: nat) {
    && i < |h| && h[i].call.TimedSend? && h[i].call.stored
    && rec.sendPid == h[i].pid && rec.sendEnterTime == h[i].now
    && rec.mqdes == h[i].call.mqdes && rec.uMsgPtr == h[i].call.uMsgPtr
    && rec.msgLen == h[i].call.msgLen && rec.msgPrio == h[i].call.msgPrio
  }

  /** Between `i` and `n` the thread enters no other send call. */
  ghost predicate LastSend(h: History, i: nat, n: nat, pid: int)
    requires n <= |h|
  {
    forall j :: i < j < n && h[j].pid == pid ==> !(h[j].call.TimedSend? && h[j].call.stored)
  }

  ghost predicate LastReceive(h: History, i: nat, n: nat, pid: int)
    requires n <= |h|
  {
    forall j :: i < j < n && h[j].pid == pid ==> !Receives(h, j)
  }

  ghost predicate NoStamp(h: History, i: nat, n: nat, k: U64)
    requires n <= |h|
  {
    forall j :: i < j < n ==> !Stamps(h, j, k)
  }

  /** Between `i` and `n` the thread's open receive call is given no other key. */
  ghost predicate LastStore(h: History, i: nat, n: nat, pid: int)
    requires n <= |h|
  {
    forall j :: i < j < n && h[j].pid == pid ==> !StoresForReceive(Run(h, j), h[j])
  }

  /** After `n` probes the record under key `k` is the one that `s` describes. */
  ghost predicate SentBy(h: History, n: nat, k: U64, rec: SendEvent, s: Sent)
    requires n <= |h|
  {
    && s.call < s.load < n
    && FromSend(h, rec, s.call) && LastSend(h, s.call, s.load, rec.sendPid)
    && h[s.load].pid == rec.sendPid && Inserts(h, s.load, k)
    && (forall j :: s.load < j < n ==> !Inserts(h, j, k))
    && match s.leave
       case None => rec.sendExitTime == 0 && NoStamp(h, s.load, n, k)
       case Some(l) => s.load < l < n && Stamps(h, l, k) && rec.sendExitTime == h[l].now && NoStamp(h, l, n, k)
  }

  /** After `n` probes the open receive call of thread `pid` is the one that `r` describes. */
  ghost predicate ReceivedBy(h: History, n: nat, pid: int, rec: RcvEvent, r: Received)
    requires n <= |h|
  {
    && r.call < n && Receives(h, r.call) && h[r.call].pid == pid && LastReceive(h, r.call, n, pid)
    && rec.rcvEnterTime == h[r.call].now && rec.uMsgPtr == h[r.call].call.uMsgPtr
    && match r.store
       case None => rec.keyMsgPtr == 0 && LastStore(h, r.call, n, pid)
       case Some(m) =>
         && r.call < m < n && h[m].pid == pid && StoresForReceive(Run(h, m), h[m])
         && h[m].call.msg == rec.keyMsgPtr && h[m].call.dest == rec.uMsgPtr
         && LastStore(h, m, n, pid)
  }

  /** Step `n` submits the event, and it finds the message under key `k`. */
  ghost predicate Submits(h: History, n: nat, e: MqEvent, k: U64)
    requires n < |h|
  {
    && Emits(Run(h, n), h[n]) && e == EventOf(Run(h, n), h[n])
    && Run(h, n).rcvMsg1[h[n].pid].keyMsgPtr == k
  }

  /**
   * The event is explained by one send call, the load that gave its message a key, one receive call of the
   * receiver, its store of that key, and its exit. The load is the last one to insert the key.
   */
  ghost predicate Explains(h: History, e: MqEvent, pv: Provenance) {
    && pv.leave < |h| && h[pv.leave].pid == e.rcvPid && e.rcvExitTime == h[pv.leave].now
    && pv.received.store.Some? && pv.received.store.value < pv.leave && h[pv.received.store.value].call.StoreMsg?
    && var k := h[pv.received.store.value].call.msg;
       && Submits(h, pv.leave, e, k)
       && (exists rec :: SentBy(h, pv.leave, k, rec, pv.sent) && SameSender(e, rec))
       && (exists rec :: ReceivedBy(h, pv.leave, e.rcvPid, rec, pv.received) && rec.rcvEnterTime == e.rcvEnterTime)
  }

  ghost predicate SameSender(e: MqEvent, rec: SendEvent) {
    && e.sendPid == rec.sendPid && e.mqdes == rec.mqdes && e.msgLen == rec.msgLen && e.msgPrio == rec.msgPrio
    && e.sendEnterTime == rec.sendEnterTime && e.sendExitTime == rec.sendExitTime
  }

  ghost predicate Send1Tracked(h: History, n: nat)
    requires n <= |h|
  {
    forall p :: p in Run(h, n).sendMsg1 ==>
      && Track(h, n).send1[p] < n && FromSend(h, Run(h, n).sendMsg1[p], Track(h, n).send1[p])
      && LastSend(h, Track(h, n).send1[p], n, p)
      && Run(h, n).sendMsg1[p].sendPid == p && Run(h, n).sendMsg1[p].sendExitTime == 0
  }

  ghost predicate Send2Tracked(h: History, n: nat)
    requires n <= |h|
  {
    forall k :: k in Run(h, n).sendMsg2 ==> SentBy(h, n, k, Run(h, n).sendMsg2[k], Track(h, n).send2[k])
  }

  ghost predicate Rcv1Tracked(h: History, n: nat)
    requires n <= |h|
  {
    forall p :: p in Run(h, n).rcvMsg1 ==> ReceivedBy(h, n, p, Run(h, n).rcvMsg1[p], Track(h, n).rcv1[p])
  }

  ghost predicate EventsTracked(h: History, n: nat)
    requires n <= |h|
  {
    forall i :: 0 <= i < |Run(h, n).rb| ==> Explains(h, Run(h, n).rb[i], Track(h, n).events[i])
  }

  lemma Send1Step(h: History, n: nat)
    requires n < |h| && Send1Tracked(h, n)
    ensures Send1Tracked(h, n + 1)
  {
    match h[n].call
    case TimedSend(_, _, _, _, _) =>
    case LoadMsg(_) =>
    case LoadMsgExit(_, _) =>
    case TimedSendExit =>
    case TimedReceive(_, _, _) =>
    case StoreMsg(_, _, _, _) =>
    case TimedReceiveExit(_) =>
  }

  /** What a step does to the record under key `k` and to its origin. */
  lemma MessageAfter(o: Origins, st: State, p: Probe, i: nat, k: U64)
    requires Tracks(o, st) && k in Step(st, p).sendMsg2
    ensures var rec, s := Step(st, p).sendMsg2[k], TrackStep(o, st, p, i).send2[k];
      if InsertsNow(st, p) && p.call.ret == k then
        rec == st.sendMsg1[p.pid].(keyMsgPtr := k) && s == Sent(o.send1[p.pid], i, None)
      else if k in st.sendMsg2 && StampsNow(st, p) && st.sendMsg1[p.pid].keyMsgPtr == k then
        rec == st.sendMsg2[k].(sendExitTime := p.now) && s == o.send2[k].(leave := Some(i))
      else
        k in st.sendMsg2 && rec == st.sendMsg2[k] && s == o.send2[k]
  {
  }

  lemma SentStays(h: History, n: nat, k: U64, rec: SendEvent, s: Sent)
    requires n < |h| && SentBy(h, n, k, rec, s) && !Inserts(h, n, k) && !Stamps(h, n, k)
    ensures SentBy(h, n + 1, k, rec, s)
  {
  }

  lemma SentStamped(h: History, n: nat, k: U64, rec: SendEvent, s: Sent)
    requires n < |h| && SentBy(h, n, k, rec, s) && Stamps(h, n, k)
    ensures SentBy(h, n + 1, k, rec.(sendExitTime := h[n].now), s.(leave := Some(n)))
  {
  }

  lemma SentInserted(h: History, n: nat, k: U64)
    requires n < |h| && Send1Tracked(h, n) && Inserts(h, n, k)
    ensures SentBy(h, n + 1, k, Run(h, n).sendMsg1[h[n].pid].(keyMsgPtr := k),
      Sent(Track(h, n).send1[h[n].pid], n, None))
  {
  }

  lemma MessageStep(h: History, n: nat, k: U64)
    requires n < |h| && Send1Tracked(h, n) && Send2Tracked(h, n) && k in Run(h, n + 1).sendMsg2
    ensures SentBy(h, n + 1, k, Run(h, n + 1).sendMsg2[k], Track(h, n + 1).send2[k])
  {
    var st, o, p := Run(h, n), Track(h, n), h[n];
    MessageAfter(o, st, p, n, k);
    if Inserts(h, n, k) {
      SentInserted(h, n, k);
    } else if Stamps(h, n, k) {
      SentStamped(h, n, k, st.sendMsg2[k], o.send2[k]);
    } else {
      SentStays(h, n, k, st.sendMsg2[k], o.send2[k]);
    }
  }

  lemma Send2Step(h: History, n: nat)
    requires n < |h| && Send1Tracked(h, n) && Send2Tracked(h, n)
    ensures Send2Tracked(h, n + 1)
  {
    var n' := n + 1;
    forall k | k in Run(h, n').sendMsg2 ensures SentBy(h, n', k, Run(h, n').sendMsg2[k], Track(h, n').send2[k]) {
      MessageStep(h, n, k);
    }
  }

  /** What a step does to the open receive call of thread `pid` and to its origin. */
  lemma ReceiveAfter(o: Origins, st: State, p: Probe, i: nat, pid: int)
    requires Tracks(o, st) && pid in Step(st, p).rcvMsg1
    ensures var rec, r := Step(st, p).rcvMsg1[pid], TrackStep(o, st, p, i).rcv1[pid];
      if p.pid == pid && p.call.TimedReceive? && p.call.stored then
        rec == RcvEvent(pid, 0, p.call.mqdes, 0, 0, p.call.uMsgPtr, 0, p.now, 0) && r == Received(i, None)
      else if p.pid == pid && StoresForReceive(st, p) then
        && pid in st.rcvMsg1 && r == o.rcv1[pid].(store := Some(i))
        && rec == st.rcvMsg1[pid].(
             keyMsgPtr := p.call.msg, dest := p.call.dest, msgPrio := p.call.mType, msgLen := p.call.mTs)
      else
        pid in st.rcvMsg1 && rec == st.rcvMsg1[pid] && r == o.rcv1[pid]
  {
  }

  lemma ReceiveStays(h: History, n: nat, pid: int, rec: RcvEvent, r: Received)
    requires n < |h| && ReceivedBy(h, n, pid, rec, r)
    requires h[n].pid == pid ==> !Receives(h, n) && !StoresForReceive(Run(h, n), h[n])
    ensures ReceivedBy(h, n + 1, pid, rec, r)
  {
  }

  lemma ReceiveEntered(h: History, n: nat)
    requires n < |h| && Receives(h, n)
    ensures var p := h[n];
      ReceivedBy(h, n + 1, p.pid, RcvEvent(p.pid, 0, p.call.mqdes, 0, 0, p.call.uMsgPtr, 0, p.now, 0),
          Received(n, None))
  {
  }

  /** A store is not an entry, and no store follows it at once. */
  lemma LastOnward(h: History, n: nat, call: nat)
    requires n < |h| && call < n && h[n].call.StoreMsg? && LastReceive(h, call, n, h[n].pid)
    ensures LastReceive(h, call, n + 1, h[n].pid) && LastStore(h, n, n + 1, h[n].pid)
  {
  }

  lemma ReceiveStored(h: History, n: nat, rec: RcvEvent, r: Received)
    requires n < |h| && ReceivedBy(h, n, h[n].pid, rec, r) && StoresForReceive(Run(h, n), h[n])
    requires rec == Run(h, n).rcvMsg1[h[n].pid]
    ensures var p := h[n];
      ReceivedBy(h, n + 1, p.pid, rec.(
        keyMsgPtr := p.call.msg, dest := p.call.dest, msgPrio := p.call.mType, msgLen := p.call.mTs),
        r.(store := Some(n)))
  {
    LastOnward(h, n, r.call);
  }

  lemma Rcv1Step(h: History, n: nat)
    requires n < |h| && Rcv1Tracked(h, n)
    ensures Rcv1Tracked(h, n + 1)
  {
    var n' := n + 1;
    var st, o, p := Run(h, n), Track(h, n), h[n];
    forall pid | pid in Run(h, n').rcvMsg1
      ensures ReceivedBy(h, n', pid, Run(h, n').rcvMsg1[pid], Track(h, n').rcv1[pid])
    {
      ReceiveAfter(o, st, p, n, pid);
      if p.pid == pid && Receives(h, n) {
        ReceiveEntered(h, n);
      } else if p.pid == pid && StoresForReceive(st, p) {
        ReceiveStored(h, n, st.rcvMsg1[pid], o.rcv1[pid]);
      } else {
        ReceiveStays(h, n, pid, st.rcvMsg1[pid], o.rcv1[pid]);
      }
    }
  }

  lemma EmittedExplained(h: History, n: nat)
    requires n < |h| && NonNull(h) && Monotone(h) && Emits(Run(h, n), h[n])
    requires Send2Tracked(h, n) && Rcv1Tracked(h, n)
    ensures var key := Run(h, n).rcvMsg1[h[n].pid].keyMsgPtr;
      Explains(h, EventOf(Run(h, n), h[n]), Provenance(Track(h, n).send2[key], Track(h, n).rcv1[h[n].pid], n))
  {
    var st, p := Run(h, n), h[n];
    RunConsistent(h, n);
    var rcv, key := st.rcvMsg1[p.pid], st.rcvMsg1[p.pid].keyMsgPtr;
    var r := Track(h, n).rcv1[p.pid];
    assert ReceivedBy(h, n, p.pid, rcv, r);
    assert SentBy(h, n, key, st.sendMsg2[key], Track(h, n).send2[key]);
    assert key != 0 && r.store.Some?;
    assert SameSender(EventOf(st, p), st.sendMsg2[key]);
  }

  lemma EventsAfter(o: Origins, st: State, p: Probe, i: nat)
    requires Tracks(o, st)
    ensures Emits(st, p) ==>
      var key := st.rcvMsg1[p.pid].keyMsgPtr;
      && Step(st, p).rb == st.rb + [EventOf(st, p)]
      && TrackStep(o, st, p, i).events == o.events + [Provenance(o.send2[key], o.rcv1[p.pid], i)]
    ensures !Emits(st, p) ==> Step(st, p).rb == st.rb && TrackStep(o, st, p, i).events == o.events
  {
  }

  lemma AllExplained(h: History, rb: seq<MqEvent>, pvs: seq<Provenance>, e: MqEvent, pv: Provenance)
    requires |rb| == |pvs| && forall i :: 0 <= i < |rb| ==> Explains(h, rb[i], pvs[i])
    requires Explains(h, e, pv)
    ensures forall i :: 0 <= i < |rb + [e]| ==> Explains(h, (rb + [e])[i], (pvs + [pv])[i])
  {
  }

  lemma EventsStep(h: History, n: nat)
    requires n < |h| && NonNull(h) && Monotone(h)
    requires Send2Tracked(h, n) && Rcv1Tracked(h, n) && EventsTracked(h, n)
    ensures EventsTracked(h, n + 1)
  {
    var st, o, p := Run(h, n), Track(h, n), h[n];
    EventsAfter(o, st, p, n);
    if Emits(st, p) {
      EmittedExplained(h, n);
      AllExplained(h, st.rb, o.events, EventOf(st, p),
          Provenance(o.send2[st.rcvMsg1[p.pid].keyMsgPtr], o.rcv1[p.pid], n));
    }
  }

  lemma {:induction false} RunTracked(h: History, n: nat)
    requires n <= |h| && Monotone(h) && NonNull(h)
    ensures Send1Tracked(h, n) && Send2Tracked(h, n) && Rcv1Tracked(h, n) && EventsTracked(h, n)
  {
    if n == 0 {
      NothingTracked(h);
    } else {
      RunTracked(h, n - 1);
      NextTracked(h, n - 1, n);
    }
  }

  lemma NothingTracked(h: History)
    ensures Send1Tracked(h, 0) && Send2Tracked(h, 0) && Rcv1Tracked(h, 0) && EventsTracked(h, 0)
  {
    assert Run(h, 0) == INITIAL;
  }

  lemma NextTracked(h: History, n: nat, n': nat)
    requires n' == n + 1 <= |h| && Monotone(h) && NonNull(h)
    requires Send1Tracked(h, n) && Send2Tracked(h, n) && Rcv1Tracked(h, n) && EventsTracked(h, n)
    ensures Send1Tracked(h, n') && Send2Tracked(h, n') && Rcv1Tracked(h, n') && EventsTracked(h, n')
  {
    Send1Step(h, n);
    Send2Step(h, n);
    Rcv1Step(h, n);
    EventsStep(h, n);
  }

  /** Every event has an explanation. */
  lemma EventsExplained(h: History, n: nat, i: nat)
    requires n <= |h| && Monotone(h) && NonNull(h) && i < |Run(h, n).rb|
    ensures exists pv :: Explains(h, Run(h, n).rb[i], pv)
  {
    RunTracked(h, n);
    assert Explains(h, Run(h, n).rb[i], Track(h, n).events[i]);
  }
}
