/** The transmit path: lwIP's link-output callback `linkoutput_fn`, which
    polls TinyUSB until it can take the frame, and TinyUSB's
    `tud_network_xmit_cb`, which copies the frame into the USB buffer.
    The answers of `tud_ready` and `tud_network_can_xmit` are given as two
    finite scripts, consumed one answer per call. */
module Transmit {
  import opened NetTypes

  /** lwIP error codes the link output returns. */
  datatype Err = ErrOk | ErrUse

  /** How a run of the polling loop ends: returned with a code, or still
      polling when the answer scripts ran out. */
  datatype LinkOutcome = Returned(err: Err) | StillPolling

  /** One call the loop makes into TinyUSB, with the answer where there is one. */
  datatype UsbCall =
    | Ready(answer: bool)                  // tud_ready
    | CanXmit(size: nat, answer: bool)     // tud_network_can_xmit(p->tot_len)
    | Xmit(p: Pbuf)                        // tud_network_xmit(p, 0)
    | Task                                 // tud_task

  datatype LinkRun = LinkRun(outcome: LinkOutcome, calls: seq<UsbCall>)

  /** The calls of one turn that ended with "cannot transmit yet". */
  function FailedTurn(p: Pbuf): seq<UsbCall>
  {
    [Ready(true), CanXmit(p.TotLen(), false), Task]
  }

  /** Reference definition of the loop, one turn per recursive call. */
  function PollLink(p: Pbuf, ready: seq<bool>, canXmit: seq<bool>): LinkRun
    decreases |ready|
  {
    if ready == [] then LinkRun(StillPolling, [])
    else if !ready[0] then LinkRun(Returned(ErrUse), [Ready(false)])
    else if canXmit == [] then LinkRun(StillPolling, [Ready(true)])
    else if canXmit[0] then LinkRun(Returned(ErrOk), [Ready(true), CanXmit(p.TotLen(), true), Xmit(p)])
    else
      var rest := PollLink(p, ready[1..], canXmit[1..]);
      LinkRun(rest.outcome, FailedTurn(p) + rest.calls)
  }

  /** The frames handed to `tud_network_xmit`, in order. */
  function Transmitted(calls: seq<UsbCall>): seq<Pbuf>
  {
    if calls == [] then []
    else (if calls[0].Xmit? then [calls[0].p] else []) + Transmitted(calls[1..])
  }

  /** The number of `tud_task` calls. */
  function Yields(calls: seq<UsbCall>): nat
  {
    if calls == [] then 0 else (if calls[0] == Task then 1 else 0) + Yields(calls[1..])
  }

  /** The number of capacity checks `tud_network_can_xmit` answered no. */
  function FailedChecks(calls: seq<UsbCall>): nat
  {
    if calls == [] then 0
    else (if calls[0].CanXmit? && !calls[0].answer then 1 else 0) + FailedChecks(calls[1..])
  }

  /** The number of times `tud_ready` answered no. */
  function NotReadyAnswers(calls: seq<UsbCall>): nat
  {
    if calls == [] then 0 else (if calls[0] == Ready(false) then 1 else 0) + NotReadyAnswers(calls[1..])
  }

  lemma {:induction false} TransmittedAppend(a: seq<UsbCall>, b: seq<UsbCall>)
    ensures Transmitted(a + b) == Transmitted(a) + Transmitted(b)
  {
    if a == [] {
      assert a + b == b;
    } else {
      assert (a + b)[0] == a[0] && (a + b)[1..] == a[1..] + b;
      TransmittedAppend(a[1..], b);
    }
  }

  lemma {:induction false} YieldsAppend(a: seq<UsbCall>, b: seq<UsbCall>)
    ensures Yields(a + b) == Yields(a) + Yields(b)
  {
    if a == [] {
      assert a + b == b;
    } else {
      assert (a + b)[0] == a[0] && (a + b)[1..] == a[1..] + b;
      YieldsAppend(a[1..], b);
    }
  }

  lemma {:induction false} FailedChecksAppend(a: seq<UsbCall>, b: seq<UsbCall>)
    ensures FailedChecks(a + b) == FailedChecks(a) + FailedChecks(b)
  {
    if a == [] {
      assert a + b == b;
    } else {
      assert (a + b)[0] == a[0] && (a + b)[1..] == a[1..] + b;
      FailedChecksAppend(a[1..], b);
    }
  }

  lemma {:induction false} NotReadyAnswersAppend(a: seq<UsbCall>, b: seq<UsbCall>)
    ensures NotReadyAnswers(a + b) == NotReadyAnswers(a) + NotReadyAnswers(b)
  {
    if a == [] {
      assert a + b == b;
    } else {
      assert (a + b)[0] == a[0] && (a + b)[1..] == a[1..] + b;
      NotReadyAnswersAppend(a[1..], b);
    }
  }

  /** Every counter distributes over concatenation of call sequences. */
  lemma CountsAppend(a: seq<UsbCall>, b: seq<UsbCall>)
    ensures Transmitted(a + b) == Transmitted(a) + Transmitted(b)
    ensures Yields(a + b) == Yields(a) + Yields(b)
    ensures FailedChecks(a + b) == FailedChecks(a) + FailedChecks(b)
    ensures NotReadyAnswers(a + b) == NotReadyAnswers(a) + NotReadyAnswers(b)
  {
    TransmittedAppend(a, b);
    YieldsAppend(a, b);
    FailedChecksAppend(a, b);
    NotReadyAnswersAppend(a, b);
  }

  lemma CountsOne(c: UsbCall)
    ensures Transmitted([c]) == (if c.Xmit? then [c.p] else [])
    ensures Yields([c]) == (if c == Task then 1 else 0)
    ensures FailedChecks([c]) == (if c.CanXmit? && !c.answer then 1 else 0)
    ensures NotReadyAnswers([c]) == (if c == Ready(false) then 1 else 0)
  {
    assert [c][1..] == [];
  }

  lemma CountsThree(c0: UsbCall, c1: UsbCall, c2: UsbCall)
    ensures Transmitted([c0, c1, c2]) == Transmitted([c0]) + Transmitted([c1]) + Transmitted([c2])
    ensures Yields([c0, c1, c2]) == Yields([c0]) + Yields([c1]) + Yields([c2])
    ensures FailedChecks([c0, c1, c2]) == FailedChecks([c0]) + FailedChecks([c1]) + FailedChecks([c2])
    ensures NotReadyAnswers([c0, c1, c2]) == NotReadyAnswers([c0]) + NotReadyAnswers([c1]) + NotReadyAnswers([c2])
  {
    CountsAppend([c0], [c1]);
    CountsAppend([c0] + [c1], [c2]);
    assert [c0, c1, c2] == [c0] + [c1] + [c2];
  }

  lemma FailedTurnCounts(p: Pbuf)
    ensures Transmitted(FailedTurn(p)) == []
    ensures Yields(FailedTurn(p)) == 1
    ensures FailedChecks(FailedTurn(p)) == 1
    ensures NotReadyAnswers(FailedTurn(p)) == 0
  {
    CountsThree(Ready(true), CanXmit(p.TotLen(), false), Task);
    CountsOne(Ready(true));
    CountsOne(CanXmit(p.TotLen(), false));
    CountsOne(Task);
  }

  lemma SuccessTurnCounts(p: Pbuf)
    ensures Transmitted([Ready(true), CanXmit(p.TotLen(), true), Xmit(p)]) == [p]
    ensures Yields([Ready(true), CanXmit(p.TotLen(), true), Xmit(p)]) == 0
    ensures FailedChecks([Ready(true), CanXmit(p.TotLen(), true), Xmit(p)]) == 0
    ensures NotReadyAnswers([Ready(true), CanXmit(p.TotLen(), true), Xmit(p)]) == 0
  {
    CountsThree(Ready(true), CanXmit(p.TotLen(), true), Xmit(p));
    CountsOne(Ready(true));
    CountsOne(CanXmit(p.TotLen(), true));
    CountsOne(Xmit(p));
  }

  /** A run preceded by calls already made. */
  function Prefixed(done: seq<UsbCall>, r: LinkRun): LinkRun
  {
    LinkRun(r.outcome, done + r.calls)
  }

  /** One turn of the reference definition, taken at position i of the
      scripts. */
  lemma PollLinkAt(p: Pbuf, ready: seq<bool>, canXmit: seq<bool>, i: nat)
    requires i < |ready| && i <= |canXmit|
    ensures PollLink(p, ready[i..], canXmit[i..]) ==
      if !ready[i] then LinkRun(Returned(ErrUse), [Ready(false)])
      else if i == |canXmit| then LinkRun(StillPolling, [Ready(true)])
      else if canXmit[i] then LinkRun(Returned(ErrOk), [Ready(true), CanXmit(p.TotLen(), true), Xmit(p)])
      else Prefixed(FailedTurn(p), PollLink(p, ready[i + 1..], canXmit[i + 1..]))
  {
  }

  /** `linkoutput_fn(netif, p)`: the `for (;;)` loop, run until it returns or
      the scripts run out. */
  method LinkOutput(p: Pbuf, ready: seq<bool>, canXmit: seq<bool>) returns (outcome: LinkOutcome, calls: seq<UsbCall>)
    ensures LinkRun(outcome, calls) == PollLink(p, ready, canXmit)
    ensures Yields(calls) == FailedChecks(calls)
    ensures Transmitted(calls) == (if outcome == Returned(ErrOk) then [p] else [])
  {
    calls := [];
    outcome := StillPolling;
    var i := 0;
    ghost var returned := false;
    assert ready[0..] == ready && canXmit[0..] == canXmit;
    while i < |ready|
      invariant 0 <= i <= |ready| && i <= |canXmit|
      invariant PollLink(p, ready, canXmit) == Prefixed(calls, PollLink(p, ready[i..], canXmit[i..]))
    {
      PollLinkAt(p, ready, canXmit, i);
      // TinyUSB not ready: nothing to do
      if !ready[i] {
        calls := calls + [Ready(false)];
        outcome := Returned(ErrUse);
        returned := true;
        break;
      }
      if i == |canXmit| {
        calls := calls + [Ready(true)];
        returned := true;
        break;
      }
      // the driver can take the frame
      if canXmit[i] {
        calls := calls + [Ready(true), CanXmit(p.TotLen(), true), Xmit(p)];
        outcome := Returned(ErrOk);
        returned := true;
        break;
      }
      // let TinyUSB finish the previous frame
      calls := calls + FailedTurn(p);
      i := i + 1;
    }
    if !returned {
      assert ready[i..] == [];
    }
    assert LinkRun(outcome, calls) == PollLink(p, ready, canXmit);
    PollLinkCounts(p, ready, canXmit);
  }

  /** What any run of the loop does: one `tud_task` per failed capacity
      check; `p` transmitted once when the result is ERR_OK and nothing
      transmitted otherwise; a `tud_ready` that said no exactly once when
      the result is ERR_USE and never otherwise. */
  lemma {:induction false} PollLinkCounts(p: Pbuf, ready: seq<bool>, canXmit: seq<bool>)
    decreases |ready|
    ensures var r := PollLink(p, ready, canXmit);
      && Yields(r.calls) == FailedChecks(r.calls)
      && Transmitted(r.calls) == (if r.outcome == Returned(ErrOk) then [p] else [])
      && NotReadyAnswers(r.calls) == (if r.outcome == Returned(ErrUse) then 1 else 0)
  {
    var r := PollLink(p, ready, canXmit);
    if ready == [] {
    } else if !ready[0] {
      CountsOne(Ready(false));
    } else if canXmit == [] {
      CountsOne(Ready(true));
    } else if canXmit[0] {
      SuccessTurnCounts(p);
    } else {
      var rest := PollLink(p, ready[1..], canXmit[1..]);
      PollLinkCounts(p, ready[1..], canXmit[1..]);
      FailedTurnCounts(p);
      CountsAppend(FailedTurn(p), rest.calls);
    }
  }

  /** ERR_OK comes only right after the transmit, and ERR_USE only right
      after a `tud_ready` that said no. */
  lemma {:induction false} PollLinkLastCall(p: Pbuf, ready: seq<bool>, canXmit: seq<bool>)
    decreases |ready|
    ensures var r := PollLink(p, ready, canXmit);
      && (r.outcome == Returned(ErrOk) ==> r.calls != [] && r.calls[|r.calls| - 1] == Xmit(p))
      && (r.outcome == Returned(ErrUse) <==> r.calls != [] && r.calls[|r.calls| - 1] == Ready(false))
  {
    if ready != [] && ready[0] && canXmit != [] && !canXmit[0] {
      var rest := PollLink(p, ready[1..], canXmit[1..]);
      PollLinkLastCall(p, ready[1..], canXmit[1..]);
      var r := PollLink(p, ready, canXmit);
      if rest.calls != [] {
        assert r.calls[|r.calls| - 1] == rest.calls[|rest.calls| - 1];
      } else {
        assert r.calls[|r.calls| - 1] == Task;
      }
    }
  }

  /** With `tud_ready` always true, k failed capacity checks followed by a
      successful one make the loop yield to `tud_task` k times, transmit
      `p` once and return ERR_OK. */
  lemma {:induction false} FailedChecksThenSuccess(p: Pbuf, ready: seq<bool>, canXmit: seq<bool>, k: nat)
    requires k < |ready| && k < |canXmit|
    requires forall j :: 0 <= j <= k ==> ready[j]
    requires forall j :: 0 <= j < k ==> !canXmit[j]
    requires canXmit[k]
    ensures var r := PollLink(p, ready, canXmit);
      && r.outcome == Returned(ErrOk)
      && Yields(r.calls) == k
      && Transmitted(r.calls) == [p]
      && |r.calls| == 3 * k + 3
  {
    var r := PollLink(p, ready, canXmit);
    if k > 0 {
      var rest := PollLink(p, ready[1..], canXmit[1..]);
      FailedChecksThenSuccess(p, ready[1..], canXmit[1..], k - 1);
      FailedTurnCounts(p);
      CountsAppend(FailedTurn(p), rest.calls);
    } else {
      SuccessTurnCounts(p);
    }
  }

  /** While TinyUSB stays ready the loop never reports ERR_USE. */
  lemma {:induction false} AlwaysReadyNeverErrUse(p: Pbuf, ready: seq<bool>, canXmit: seq<bool>)
    requires forall j :: 0 <= j < |ready| ==> ready[j]
    decreases |ready|
    ensures PollLink(p, ready, canXmit).outcome != Returned(ErrUse)
  {
    if ready != [] && canXmit != [] && !canXmit[0] {
      AlwaysReadyNeverErrUse(p, ready[1..], canXmit[1..]);
    }
  }

  /** The first `tud_ready` that says no ends the loop with ERR_USE and
      nothing transmitted, after one yield per earlier turn. */
  lemma {:induction false} NotReadyStops(p: Pbuf, ready: seq<bool>, canXmit: seq<bool>, k: nat)
    requires k < |ready| && k <= |canXmit| && !ready[k]
    requires forall j :: 0 <= j < k ==> ready[j] && !canXmit[j]
    ensures var r := PollLink(p, ready, canXmit);
      && r.outcome == Returned(ErrUse)
      && Transmitted(r.calls) == []
      && Yields(r.calls) == k
  {
    var r := PollLink(p, ready, canXmit);
    if k > 0 {
      var rest := PollLink(p, ready[1..], canXmit[1..]);
      NotReadyStops(p, ready[1..], canXmit[1..], k - 1);
      FailedTurnCounts(p);
      CountsAppend(FailedTurn(p), rest.calls);
    } else {
      CountsOne(Ready(false));
    }
  }

  /** The scenario of a USB side busy for two checks: two yields, one
      transmit, ERR_OK. */
  lemma TwoBusyChecks(p: Pbuf)
    ensures var r := PollLink(p, [true, true, true], [false, false, true]);
      r.outcome == Returned(ErrOk) && Yields(r.calls) == 2 && Transmitted(r.calls) == [p]
  {
    FailedChecksThenSuccess(p, [true, true, true], [false, false, true], 2);
  }

  /** `tud_network_xmit_cb(dst, ref, arg)`: copy all `tot_len` bytes of the
      frame to the front of `dst`, leave the rest of `dst` alone and return
      the number of bytes copied. `arg` is unused. */
  method XmitCallback(dst: array<byte>, p: Pbuf, arg: uint16) returns (copied: uint16)
    requires p.TotLen() < 0x1_0000
    requires p.TotLen() <= dst.Length
    modifies dst
    ensures copied as int == p.TotLen()
    ensures dst[..copied] == p.payload
    ensures dst[copied..] == old(dst[copied..])
  {
    copied := p.TotLen();
    forall k | 0 <= k < copied {
      dst[k] := p.payload[k];
    }
  }
}
