/** Message-queue latency probes: the handlers as steps over the three hash maps and the ring buffer. */
module Mq {
  import opened Options
  import opened Words

  datatype SendEvent = SendEvent(
    sendPid: int, keyMsgPtr: U64, mqdes: int, msgLen: U64, msgPrio: nat, uMsgPtr: U64, src: U64,
    sendEnterTime: U64, sendExitTime: U64)

  datatype RcvEvent = RcvEvent(
    rcvPid: int, keyMsgPtr: U64, mqdes: int, msgLen: U64, msgPrio: nat, uMsgPtr: U64, dest: U64,
    rcvEnterTime: U64, rcvExitTime: U64)

  datatype MqEvent = MqEvent(
    sendPid: int, rcvPid: int, mqdes: int, msgLen: U64, msgPrio: nat,
    sendEnterTime: U64, sendExitTime: U64, rcvEnterTime: U64, rcvExitTime: U64)

  datatype State = State(
    sendMsg1: map<int, SendEvent>, sendMsg2: map<U64, SendEvent>, rcvMsg1: map<int, RcvEvent>, rb: seq<MqEvent>)

  const INITIAL := State(map[], map[], map[], [])

  /** A traced kernel function was entered or left. `stored` and `reserved` say whether the BPF helper succeeded. */
  datatype Call =
    | TimedSend(mqdes: int, uMsgPtr: U64, msgLen: U64, msgPrio: nat, stored: bool)
    | LoadMsg(src: U64)
    | LoadMsgExit(ret: U64, stored: bool)
    | TimedSendExit
    | TimedReceive(mqdes: int, uMsgPtr: U64, stored: bool)
    | StoreMsg(dest: U64, msg: U64, mType: nat, mTs: U64)
    | TimedReceiveExit(reserved: bool)

  /** Thread `pid` runs a handler at time `now`. */
  datatype Probe = Probe(pid: int, now: U64, call: Call)

  /** The load belongs to a send call: it reads from the buffer that the call was given. */
  predicate LoadsForSend(st: State, pid: int) {
    && pid in st.sendMsg1
    && st.sendMsg1[pid].uMsgPtr == st.sendMsg1[pid].src && pid == st.sendMsg1[pid].sendPid
  }

  /** Leaving the receive call submits an event. */
  predicate Emits(st: State, p: Probe) {
    && p.call.TimedReceiveExit? && p.call.reserved
    && p.pid in st.rcvMsg1 && st.rcvMsg1[p.pid].keyMsgPtr in st.sendMsg2
  }

  function EventOf(st: State, p: Probe): MqEvent
    requires Emits(st, p)
  {
    var rcv := st.rcvMsg1[p.pid];
    var send := st.sendMsg2[rcv.keyMsgPtr];
    MqEvent(send.sendPid, p.pid, send.mqdes, send.msgLen, send.msgPrio,
            send.sendEnterTime, send.sendExitTime, rcv.rcvEnterTime, p.now)
  }

  /** What the handler of a probe does. */
  function Step(st: State, p: Probe): State {
    var pid := p.pid;
    match p.call
    case TimedSend(mqdes, uMsgPtr, msgLen, msgPrio, stored) =>
      if stored then
        st.(sendMsg1 := st.sendMsg1[pid := SendEvent(pid, 0, mqdes, msgLen, msgPrio, uMsgPtr, 0, p.now, 0)])
      else st
    case LoadMsg(src) =>
      if pid in st.sendMsg1 then st.(sendMsg1 := st.sendMsg1[pid := st.sendMsg1[pid].(src := src)]) else st
    case LoadMsgExit(ret, stored) =>
      if LoadsForSend(st, pid) then
        var rec := st.sendMsg1[pid].(keyMsgPtr := ret);
        st.(sendMsg1 := st.sendMsg1[pid := rec],
            sendMsg2 := if stored then st.sendMsg2[ret := rec] else st.sendMsg2)
      else st
    case TimedSendExit =>
      if pid in st.sendMsg1 && st.sendMsg1[pid].keyMsgPtr in st.sendMsg2 then
        var key := st.sendMsg1[pid].keyMsgPtr;
        st.(sendMsg1 := st.sendMsg1 - {pid},
            sendMsg2 := st.sendMsg2[key := st.sendMsg2[key].(sendExitTime := p.now)])
      else st
    case TimedReceive(mqdes, uMsgPtr, stored) =>
      if stored then
        st.(rcvMsg1 := st.rcvMsg1[pid := RcvEvent(pid, 0, mqdes, 0, 0, uMsgPtr, 0, p.now, 0)])
      else st
    case StoreMsg(dest, msg, mType, mTs) =>
      if StoresForReceive(st, p) then
        st.(rcvMsg1 := st.rcvMsg1[pid :=
              st.rcvMsg1[pid].(keyMsgPtr := msg, dest := dest, msgPrio := mType, msgLen := mTs)])
      else st
    case TimedReceiveExit(_) =>
      if Emits(st, p) then
        st.(rb := st.rb + [EventOf(st, p)],
            sendMsg2 := st.sendMsg2 - {st.rcvMsg1[pid].keyMsgPtr},
            rcvMsg1 := st.rcvMsg1 - {pid})
      else st
  }

  /** The store belongs to a receive call, and its message is a known one. */
  predicate StoresForReceive(st: State, p: Probe)
  {
    && p.call.StoreMsg? && p.call.msg in st.sendMsg2 && p.pid in st.rcvMsg1
    && p.call.dest == st.rcvMsg1[p.pid].uMsgPtr && p.pid == st.rcvMsg1[p.pid].rcvPid
  }

  // ---------------------------------------------------------------- the handlers

  class MqDelay {
    var sendMsg1: map<int, SendEvent>
    var sendMsg2: map<U64, SendEvent>
    var rcvMsg1: map<int, RcvEvent>
    var rb: seq<MqEvent>

    function View(): State
      reads this
    {
      State(sendMsg1, sendMsg2, rcvMsg1, rb)
    }

    constructor ()
      ensures View() == INITIAL
    {
      sendMsg1, sendMsg2, rcvMsg1, rb := map[], map[], map[], [];
    }

    method MqTimedsend(pid: int, now: U64, mqdes: int, uMsgPtr: U64, msgLen: U64, msgPrio: nat, stored: bool)
      modifies this
      ensures View() == Step(old(View()), Probe(pid, now, TimedSend(mqdes, uMsgPtr, msgLen, msgPrio, stored)))
    {
      var mqSendInfo := SendEvent(pid, 0, mqdes, msgLen, msgPrio, uMsgPtr, 0, now, 0);
      if stored {
        sendMsg1 := sendMsg1[pid := mqSendInfo];
      }
    }

    method LoadMsgEnter(pid: int, now: U64, src: U64)
      modifies this
      ensures View() == Step(old(View()), Probe(pid, now, LoadMsg(src)))
    {
      if pid !in sendMsg1 {
        return;
      }
      sendMsg1 := sendMsg1[pid := sendMsg1[pid].(src := src)];
    }

    method LoadMsgLeave(pid: int, now: U64, ret: U64, stored: bool)
      modifies this
      ensures View() == Step(old(View()), Probe(pid, now, LoadMsgExit(ret, stored)))
    {
      if pid !in sendMsg1 {
        return;
      }
      var mqSendInfo := sendMsg1[pid];
      if mqSendInfo.uMsgPtr == mqSendInfo.src && pid == mqSendInfo.sendPid {
        mqSendInfo := mqSendInfo.(keyMsgPtr := ret);
        sendMsg1 := sendMsg1[pid := mqSendInfo];
      } else {
        return;
      }
      if stored {
        sendMsg2 := sendMsg2[mqSendInfo.keyMsgPtr := mqSendInfo];
      }
    }

    method DoMqTimedsendExit(pid: int, now: U64)
      modifies this
      ensures View() == Step(old(View()), Probe(pid, now, TimedSendExit))
    {
      if pid !in sendMsg1 {
        return;
      }
      var key := sendMsg1[pid].keyMsgPtr;
      if key !in sendMsg2 {
        return;
      }
      sendMsg2 := sendMsg2[key := sendMsg2[key].(sendExitTime := now)];
      sendMsg1 := sendMsg1 - {pid};
    }

    method MqTimedreceiveEntry(pid: int, now: U64, mqdes: int, uMsgPtr: U64, stored: bool)
      modifies this
      ensures View() == Step(old(View()), Probe(pid, now, TimedReceive(mqdes, uMsgPtr, stored)))
    {
      var mqRcvInfo := RcvEvent(pid, 0, mqdes, 0, 0, uMsgPtr, 0, now, 0);
      if stored {
        rcvMsg1 := rcvMsg1[pid := mqRcvInfo];
      }
    }

    method StoreMsgEnter(pid: int, now: U64, dest: U64, msg: U64, mType: nat, mTs: U64)
      modifies this
      ensures View() == Step(old(View()), Probe(pid, now, StoreMsg(dest, msg, mType, mTs)))
    {
      if msg !in sendMsg2 {
        return;
      }
      if pid !in rcvMsg1 {
        return;
      }
      var mqRcvInfo := rcvMsg1[pid];
      if dest == mqRcvInfo.uMsgPtr && pid == mqRcvInfo.rcvPid {
        rcvMsg1 := rcvMsg1[pid := mqRcvInfo.(keyMsgPtr := msg, dest := dest, msgPrio := mType, msgLen := mTs)];
      }
    }

    method DoMqTimedreceiveExit(pid: int, now: U64, reserved: bool)
      modifies this
      ensures View() == Step(old(View()), Probe(pid, now, TimedReceiveExit(reserved)))
    {
      if pid !in rcvMsg1 {
        return;
      }
      var mqRcvInfo := rcvMsg1[pid];
      var key := mqRcvInfo.keyMsgPtr;
      if key !in sendMsg2 {
        return;
      }
      var mqSendInfo := sendMsg2[key];
      if !reserved {
        return;
      }
      var e := MqEvent(mqSendInfo.sendPid, pid, mqSendInfo.mqdes, mqSendInfo.msgLen, mqSendInfo.msgPrio,
                       mqSendInfo.sendEnterTime, mqSendInfo.sendExitTime, mqRcvInfo.rcvEnterTime, now);
      rb := rb + [e];
      sendMsg2 := sendMsg2 - {key};
      rcvMsg1 := rcvMsg1 - {pid};
    }
  }

  // ---------------------------------------------------------------- the consumer

  datatype Report = Report(sendDelay: real, rcvDelay: real, delay: real)

  /** Unsigned 64-bit subtraction, which wraps around. */
  function Sub(a: U64, b: U64): U64 { (a - b) % WORD }

  function Millis(ns: U64): real { ns as real / 1000000.0 }

  /** The delays that are printed for an event, in milliseconds; an event with a missing time is dropped. */
  function ReportOf(e: MqEvent): Option<Report> {
    if e.sendEnterTime == 0 || e.sendExitTime == 0 || e.rcvEnterTime == 0 || e.rcvExitTime == 0 then None
    else
      var sendDelay := Millis(Sub(e.sendExitTime, e.sendEnterTime));
      var rcvDelay := Millis(Sub(e.rcvExitTime, e.rcvEnterTime));
      var delay := Millis(Sub(e.rcvExitTime, e.sendEnterTime));
      Some(Report(sendDelay, rcvDelay,
                  if e.sendEnterTime < e.rcvEnterTime then delay else delay + sendDelay + rcvDelay))
  }
}
