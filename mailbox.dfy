/** The single-slot receive mailbox `received_frame`, as step functions over
    the slot's value. Each step gives the new slot, the answer returned to
    TinyUSB where there is one, and the calls made into lwIP and TinyUSB on
    the way. The class in module UsbNetwork implements these steps. */
module Mailbox {
  import opened NetTypes

  datatype RecvStep = RecvStep(accepted: bool, slot: Option<Pbuf>, events: seq<Event>)
  datatype Step = Step(slot: Option<Pbuf>, events: seq<Event>)

  /** `tud_network_recv_cb(src, size)`: refuse while a frame is held;
      otherwise accept, and keep a copy of the first `size` bytes of `src`
      when `size` is non-zero and the pool has a buffer. `alloc` is the
      answer pbuf_alloc gives: the handle of the buffer, or None for NULL. */
  function Offer(slot: Option<Pbuf>, src: seq<byte>, size: uint16, alloc: Option<nat>): RecvStep
    requires size <= |src|
  {
    if slot.Some? then RecvStep(false, slot, [])
    else if size == 0 then RecvStep(true, None, [])
    else if alloc.None? then RecvStep(true, None, [PbufAlloc(size, None)])
    else
      var p := Pbuf(alloc.value, src[..size]);
      RecvStep(true, Some(p), [PbufAlloc(size, Some(p))])
  }

  /** `tud_network_init_cb`: drop a leftover frame, freeing it. */
  function Reset(slot: Option<Pbuf>): Step
  {
    match slot
    case Some(p) => Step(None, [PbufFree(p)])
    case None => Step(None, [])
  }

  /** `service_traffic`: hand a held frame to `ethernet_input` (whose answer
      is `inputOk`), free it only if the stack refused it, re-arm reception,
      and always run the stack's timers. */
  function Drain(slot: Option<Pbuf>, inputOk: bool): Step
  {
    match slot
    case Some(p) =>
      Step(None, [EthernetInput(p, inputOk)] + (if inputOk then [] else [PbufFree(p)])
                 + [RecvRenew, CheckTimeouts])
    case None => Step(None, [CheckTimeouts])
  }

  // Ownership ledger. A buffer obtained from pbuf_alloc is owned by the
  // bridge until it is either freed by the bridge or accepted by
  // ethernet_input, after which lwIP owns it. Buffers are counted by
  // handle, so two frames with the same bytes are still two buffers.

  /** The buffer an event obtains from pbuf_alloc, if any. */
  function AllocatedBy(e: Event): multiset<nat>
  {
    match e
    case PbufAlloc(_, Some(p)) => multiset{p.handle}
    case _ => multiset{}
  }

  /** The buffer an event passes to pbuf_free, if any. */
  function FreedBy(e: Event): multiset<nat>
  {
    match e
    case PbufFree(p) => multiset{p.handle}
    case _ => multiset{}
  }

  /** The buffer whose ownership an event gives to lwIP, if any. */
  function HandedOverBy(e: Event): multiset<nat>
  {
    match e
    case EthernetInput(p, true) => multiset{p.handle}
    case _ => multiset{}
  }

  /** The buffers obtained from pbuf_alloc. */
  function Allocated(trace: seq<Event>): multiset<nat>
  {
    if trace == [] then multiset{} else AllocatedBy(trace[0]) + Allocated(trace[1..])
  }

  /** The buffers passed to pbuf_free. */
  function Freed(trace: seq<Event>): multiset<nat>
  {
    if trace == [] then multiset{} else FreedBy(trace[0]) + Freed(trace[1..])
  }

  /** The buffers whose ownership went to lwIP. */
  function HandedOver(trace: seq<Event>): multiset<nat>
  {
    if trace == [] then multiset{} else HandedOverBy(trace[0]) + HandedOver(trace[1..])
  }

  /** The buffers the bridge no longer owns. */
  function Released(trace: seq<Event>): multiset<nat>
  {
    Freed(trace) + HandedOver(trace)
  }

  /** The handle of the buffer in the slot, if any. */
  function Held(slot: Option<Pbuf>): multiset<nat>
  {
    match slot
    case Some(p) => multiset{p.handle}
    case None => multiset{}
  }

  /** Every handle occurs among the allocations as often as among the
      releases and the slot together: what the bridge obtained it still
      holds or has released. */
  ghost predicate Ledger(trace: seq<Event>, slot: Option<Pbuf>)
  {
    Allocated(trace) == Released(trace) + Held(slot)
  }

  lemma {:induction false} LedgerAppend(a: seq<Event>, b: seq<Event>)
    ensures Allocated(a + b) == Allocated(a) + Allocated(b)
    ensures Freed(a + b) == Freed(a) + Freed(b)
    ensures HandedOver(a + b) == HandedOver(a) + HandedOver(b)
  {
    if a != [] {
      assert (a + b)[0] == a[0];
      assert (a + b)[1..] == a[1..] + b;
      LedgerAppend(a[1..], b);
    } else {
      assert a + b == b;
    }
  }

  lemma LedgerOne(e: Event)
    ensures Allocated([e]) == AllocatedBy(e)
    ensures Freed([e]) == FreedBy(e)
    ensures HandedOver([e]) == HandedOverBy(e)
  {
    assert [e][1..] == [];
  }

  /** An event that neither obtains, frees nor hands over a buffer. */
  predicate TouchesNoBuffer(e: Event)
  {
    !e.PbufAlloc? && !e.PbufFree? && !e.EthernetInput?
  }

  lemma {:induction false} NeutralEvents(events: seq<Event>)
    requires forall k :: 0 <= k < |events| ==> TouchesNoBuffer(events[k])
    ensures Allocated(events) == multiset{}
    ensures Freed(events) == multiset{}
    ensures HandedOver(events) == multiset{}
  {
    if events != [] {
      NeutralEvents(events[1..]);
    }
  }

  /** The events of one step account for the change of the slot. */
  ghost predicate Accounts(before: Option<Pbuf>, events: seq<Event>, after: Option<Pbuf>)
  {
    Allocated(events) + Held(before) == Released(events) + Held(after)
  }

  lemma LedgerStep(trace: seq<Event>, before: Option<Pbuf>, events: seq<Event>, after: Option<Pbuf>)
    requires Ledger(trace, before)
    requires Accounts(before, events, after)
    ensures Ledger(trace + events, after)
  {
    LedgerAppend(trace, events);
    SumRegroup(Allocated(trace), Allocated(events), Freed(trace), HandedOver(trace),
               Freed(events), HandedOver(events), Held(before), Held(after));
  }

  lemma SumRegroup(a1: multiset<nat>, a2: multiset<nat>, f1: multiset<nat>, o1: multiset<nat>,
                   f2: multiset<nat>, o2: multiset<nat>, h0: multiset<nat>, h1: multiset<nat>)
    requires a1 == f1 + o1 + h0
    requires a2 + h0 == f2 + o2 + h1
    ensures a1 + a2 == (f1 + f2) + (o1 + o2) + h1
  {
    forall q ensures (a1 + a2)[q] == ((f1 + f2) + (o1 + o2) + h1)[q] {
      assert a1[q] == (f1 + o1 + h0)[q];
      assert (a2 + h0)[q] == (f2 + o2 + h1)[q];
    }
  }

  lemma OfferAccounts(slot: Option<Pbuf>, src: seq<byte>, size: uint16, alloc: Option<nat>)
    requires size <= |src|
    ensures var r := Offer(slot, src, size, alloc); Accounts(slot, r.events, r.slot)
  {
    var r := Offer(slot, src, size, alloc);
    if r.events != [] {
      LedgerOne(r.events[0]);
      assert r.events == [r.events[0]];
    }
  }

  lemma ResetAccounts(slot: Option<Pbuf>)
    ensures var r := Reset(slot); Accounts(slot, r.events, r.slot)
  {
    if slot.Some? {
      LedgerOne(PbufFree(slot.value));
    }
  }

  lemma DrainAccounts(slot: Option<Pbuf>, inputOk: bool)
    ensures var r := Drain(slot, inputOk); Accounts(slot, r.events, r.slot)
    ensures Allocated(Drain(slot, inputOk).events) == multiset{}
  {
    match slot
    case None =>
      LedgerOne(CheckTimeouts);
    case Some(p) =>
      if inputOk {
        assert Drain(slot, inputOk).events == [EthernetInput(p, true), RecvRenew, CheckTimeouts];
        HandOverLedger(p);
      } else {
        assert Drain(slot, inputOk).events == [EthernetInput(p, false), PbufFree(p), RecvRenew, CheckTimeouts];
        RefusedLedger(p);
      }
  }

  lemma NeutralTail()
    ensures Allocated([RecvRenew, CheckTimeouts]) == multiset{}
    ensures Freed([RecvRenew, CheckTimeouts]) == multiset{}
    ensures HandedOver([RecvRenew, CheckTimeouts]) == multiset{}
  {
  }

  lemma HandOverLedger(p: Pbuf)
    ensures Allocated([EthernetInput(p, true), RecvRenew, CheckTimeouts]) == multiset{}
    ensures Freed([EthernetInput(p, true), RecvRenew, CheckTimeouts]) == multiset{}
    ensures HandedOver([EthernetInput(p, true), RecvRenew, CheckTimeouts]) == multiset{p.handle}
  {
    NeutralTail();
    assert [EthernetInput(p, true), RecvRenew, CheckTimeouts][1..] == [RecvRenew, CheckTimeouts];
  }

  lemma FreeLedger(p: Pbuf)
    ensures Allocated([PbufFree(p), RecvRenew, CheckTimeouts]) == multiset{}
    ensures Freed([PbufFree(p), RecvRenew, CheckTimeouts]) == multiset{p.handle}
    ensures HandedOver([PbufFree(p), RecvRenew, CheckTimeouts]) == multiset{}
  {
    NeutralTail();
    assert [PbufFree(p), RecvRenew, CheckTimeouts][1..] == [RecvRenew, CheckTimeouts];
  }

  lemma RefusedLedger(p: Pbuf)
    ensures Allocated([EthernetInput(p, false), PbufFree(p), RecvRenew, CheckTimeouts]) == multiset{}
    ensures Freed([EthernetInput(p, false), PbufFree(p), RecvRenew, CheckTimeouts]) == multiset{p.handle}
    ensures HandedOver([EthernetInput(p, false), PbufFree(p), RecvRenew, CheckTimeouts]) == multiset{}
  {
    FreeLedger(p);
    assert [EthernetInput(p, false), PbufFree(p), RecvRenew, CheckTimeouts][1..] == [PbufFree(p), RecvRenew, CheckTimeouts];
  }

  /** Each step keeps the ledger of a journal it is appended to. */
  lemma OfferKeepsLedger(trace: seq<Event>, slot: Option<Pbuf>, src: seq<byte>, size: uint16, alloc: Option<nat>)
    requires size <= |src|
    requires Ledger(trace, slot)
    ensures var r := Offer(slot, src, size, alloc); Ledger(trace + r.events, r.slot)
  {
    OfferAccounts(slot, src, size, alloc);
    var r := Offer(slot, src, size, alloc);
    LedgerStep(trace, slot, r.events, r.slot);
  }

  lemma ResetKeepsLedger(trace: seq<Event>, slot: Option<Pbuf>)
    requires Ledger(trace, slot)
    ensures Ledger(trace + Reset(slot).events, None)
  {
    ResetAccounts(slot);
    LedgerStep(trace, slot, Reset(slot).events, None);
  }

  lemma DrainKeepsLedger(trace: seq<Event>, slot: Option<Pbuf>, inputOk: bool)
    requires Ledger(trace, slot)
    ensures Ledger(trace + Drain(slot, inputOk).events, None)
  {
    DrainAccounts(slot, inputOk);
    LedgerStep(trace, slot, Drain(slot, inputOk).events, None);
  }

  lemma NeutralKeepsLedger(trace: seq<Event>, slot: Option<Pbuf>, events: seq<Event>)
    requires Ledger(trace, slot)
    requires forall k :: 0 <= k < |events| ==> TouchesNoBuffer(events[k])
    ensures Ledger(trace + events, slot)
  {
    NeutralEvents(events);
    LedgerStep(trace, slot, events, slot);
  }

  /** The three entry points that touch the slot. */
  datatype MailboxOp =
    | Receive(src: seq<byte>, size: uint16, alloc: Option<nat>)  // tud_network_recv_cb
    | Reinit                                                // tud_network_init_cb
    | Service(inputOk: bool)                                // service_traffic

  predicate WellFormedOps(ops: seq<MailboxOp>)
  {
    forall k :: 0 <= k < |ops| && ops[k].Receive? ==> ops[k].size <= |ops[k].src|
  }

  /** The effect of one entry point on the slot. */
  function Apply(slot: Option<Pbuf>, op: MailboxOp): Step
    requires op.Receive? ==> op.size <= |op.src|
  {
    match op
    case Receive(src, size, alloc) =>
      var r := Offer(slot, src, size, alloc); Step(r.slot, r.events)
    case Reinit => Reset(slot)
    case Service(inputOk) => Drain(slot, inputOk)
  }

  /** Any sequence of entry-point calls, in the order TinyUSB and the main
      loop make them. */
  function Run(slot: Option<Pbuf>, ops: seq<MailboxOp>): Step
    requires WellFormedOps(ops)
    decreases |ops|
  {
    if ops == [] then Step(slot, [])
    else
      var first := Apply(slot, ops[0]);
      var rest := Run(first.slot, ops[1..]);
      Step(rest.slot, first.events + rest.events)
  }

  lemma ApplyAccounts(slot: Option<Pbuf>, op: MailboxOp)
    requires op.Receive? ==> op.size <= |op.src|
    ensures Accounts(slot, Apply(slot, op).events, Apply(slot, op).slot)
  {
    match op
    case Receive(src, size, alloc) => OfferAccounts(slot, src, size, alloc);
    case Reinit => ResetAccounts(slot);
    case Service(inputOk) => DrainAccounts(slot, inputOk);
  }

  /** Two steps that each account for their change of the slot account
      together for the change from the first slot to the last. */
  lemma AccountsCompose(s0: Option<Pbuf>, e1: seq<Event>, s1: Option<Pbuf>, e2: seq<Event>, s2: Option<Pbuf>)
    requires Accounts(s0, e1, s1) && Accounts(s1, e2, s2)
    ensures Accounts(s0, e1 + e2, s2)
  {
    LedgerAppend(e1, e2);
    ChainRegroup(Allocated(e1), Allocated(e2), Freed(e1), HandedOver(e1), Freed(e2), HandedOver(e2),
                 Held(s0), Held(s1), Held(s2));
  }

  lemma ChainRegroup(a1: multiset<nat>, a2: multiset<nat>, f1: multiset<nat>, o1: multiset<nat>,
                     f2: multiset<nat>, o2: multiset<nat>, h0: multiset<nat>, h1: multiset<nat>, h2: multiset<nat>)
    requires a1 + h0 == f1 + o1 + h1
    requires a2 + h1 == f2 + o2 + h2
    ensures (a1 + a2) + h0 == (f1 + f2) + (o1 + o2) + h2
  {
    forall q ensures ((a1 + a2) + h0)[q] == ((f1 + f2) + (o1 + o2) + h2)[q] {
      assert (a1 + h0)[q] == (f1 + o1 + h1)[q];
      assert (a2 + h1)[q] == (f2 + o2 + h2)[q];
    }
  }

  /** Any run accounts for the change of the slot it makes. */
  lemma {:induction false} RunAccounts(slot: Option<Pbuf>, ops: seq<MailboxOp>)
    requires WellFormedOps(ops)
    decreases |ops|
    ensures Accounts(slot, Run(slot, ops).events, Run(slot, ops).slot)
  {
    if ops == [] {
      assert Run(slot, ops).events == [];
    } else {
      var first := Apply(slot, ops[0]);
      ApplyAccounts(slot, ops[0]);
      assert WellFormedOps(ops[1..]) by {
        forall k | 0 <= k < |ops[1..]| && ops[1..][k].Receive?
          ensures ops[1..][k].size <= |ops[1..][k].src|
        {
          assert ops[1..][k] == ops[k + 1];
        }
      }
      var rest := Run(first.slot, ops[1..]);
      RunAccounts(first.slot, ops[1..]);
      AccountsCompose(slot, first.events, first.slot, rest.events, rest.slot);
    }
  }

  /** Whatever the order of receptions, re-initialisations and service
      steps, every buffer the bridge obtained is still in the slot or was
      released exactly once: freed by the bridge or accepted by lwIP. */
  lemma RunKeepsLedger(trace: seq<Event>, slot: Option<Pbuf>, ops: seq<MailboxOp>)
    requires WellFormedOps(ops)
    requires Ledger(trace, slot)
    ensures Ledger(trace + Run(slot, ops).events, Run(slot, ops).slot)
  {
    RunAccounts(slot, ops);
    LedgerStep(trace, slot, Run(slot, ops).events, Run(slot, ops).slot);
  }

  /** The handle pbuf_alloc would give a receive step, if it gives one. */
  function OfferedBy(op: MailboxOp): multiset<nat>
  {
    if op.Receive? && op.alloc.Some? then multiset{op.alloc.value} else multiset{}
  }

  /** The handles pbuf_alloc would give over a sequence of entry points. */
  function Offered(ops: seq<MailboxOp>): multiset<nat>
  {
    if ops == [] then multiset{} else OfferedBy(ops[0]) + Offered(ops[1..])
  }

  lemma ApplyAllocatesOffered(slot: Option<Pbuf>, op: MailboxOp)
    requires op.Receive? ==> op.size <= |op.src|
    ensures Allocated(Apply(slot, op).events) <= OfferedBy(op)
  {
    match op
    case Receive(src, size, alloc) =>
      var r := Offer(slot, src, size, alloc);
      if r.events != [] {
        LedgerOne(r.events[0]);
        assert r.events == [r.events[0]];
      }
    case Reinit =>
      ResetFreesOnce(slot);
    case Service(inputOk) =>
      DrainAccounts(slot, inputOk);
  }

  /** A run allocates only handles pbuf_alloc gave it, each at most as often
      as it was given. */
  lemma {:induction false} RunAllocatesOffered(slot: Option<Pbuf>, ops: seq<MailboxOp>)
    requires WellFormedOps(ops)
    decreases |ops|
    ensures Allocated(Run(slot, ops).events) <= Offered(ops)
  {
    if ops == [] {
      assert Run(slot, ops).events == [];
    } else {
      var first := Apply(slot, ops[0]);
      ApplyAllocatesOffered(slot, ops[0]);
      assert WellFormedOps(ops[1..]) by {
        forall k | 0 <= k < |ops[1..]| && ops[1..][k].Receive?
          ensures ops[1..][k].size <= |ops[1..][k].src|
        {
          assert ops[1..][k] == ops[k + 1];
        }
      }
      var rest := Run(first.slot, ops[1..]);
      RunAllocatesOffered(first.slot, ops[1..]);
      LedgerAppend(first.events, rest.events);
      SumBelow(Allocated(first.events), OfferedBy(ops[0]), Allocated(rest.events), Offered(ops[1..]));
    }
  }

  lemma SumBelow(a1: multiset<nat>, b1: multiset<nat>, a2: multiset<nat>, b2: multiset<nat>)
    requires a1 <= b1 && a2 <= b2
    ensures a1 + a2 <= b1 + b2
  {
    forall q ensures (a1 + a2)[q] <= (b1 + b2)[q] {
      assert a1[q] <= b1[q] && a2[q] <= b2[q];
    }
  }

  /** From the empty slot of a fresh boot, and with pbuf_alloc never giving
      the same handle twice, every buffer is released at most once in any
      run: never freed twice, and never freed after lwIP took it over. */
  lemma RunNeverDoubleFrees(ops: seq<MailboxOp>)
    requires WellFormedOps(ops)
    requires forall h :: Offered(ops)[h] <= 1
    ensures Released(Run(None, ops).events) <= Allocated(Run(None, ops).events)
    ensures forall h :: Freed(Run(None, ops).events)[h] + HandedOver(Run(None, ops).events)[h] <= 1
  {
    var events := Run(None, ops).events;
    RunKeepsLedger([], None, ops);
    assert [] + events == events;
    RunAllocatesOffered(None, ops);
    forall h ensures Freed(events)[h] + HandedOver(events)[h] <= 1 {
      assert Allocated(events)[h] <= Offered(ops)[h];
      assert Allocated(events)[h] == (Freed(events) + HandedOver(events) + Held(Run(None, ops).slot))[h];
    }
  }

  /** Under the ledger, nothing is freed more often than it was allocated,
      and nothing is both freed and handed to lwIP more often than it was
      allocated. */
  lemma NoDoubleRelease(trace: seq<Event>, slot: Option<Pbuf>)
    requires Ledger(trace, slot)
    ensures Freed(trace) <= Allocated(trace)
    ensures HandedOver(trace) <= Allocated(trace)
    ensures Released(trace) <= Allocated(trace)
  {
  }

  // Properties of the individual steps.

  /** A second frame is refused while one is held, and the held frame is
      untouched. */
  lemma OfferWhileFullRefuses(p: Pbuf, src: seq<byte>, size: uint16, alloc: Option<nat>)
    requires size <= |src|
    ensures var r := Offer(Some(p), src, size, alloc);
      !r.accepted && r.slot == Some(p) && r.events == []
  {
  }

  /** With the slot empty every frame is accepted; it is stored, byte for
      byte, exactly when it is non-empty and a buffer was obtained. */
  lemma OfferWhileEmptyAccepts(src: seq<byte>, size: uint16, alloc: Option<nat>)
    requires size <= |src|
    ensures var r := Offer(None, src, size, alloc);
      r.accepted &&
      (r.slot.Some? <==> size > 0 && alloc.Some?) &&
      (r.slot.Some? ==> r.slot.value == Pbuf(alloc.value, src[..size]) && r.slot.value.TotLen() == size as int)
  {
  }

  /** A zero-length notification allocates nothing. */
  lemma OfferEmptyFrameAllocatesNothing(src: seq<byte>, alloc: Option<nat>)
    ensures Offer(None, src, 0, alloc).events == []
  {
  }

  /** Reset always empties the slot; it frees a held frame exactly once and
      frees nothing otherwise. */
  lemma ResetFreesOnce(slot: Option<Pbuf>)
    ensures Reset(slot).slot == None
    ensures Allocated(Reset(slot).events) == multiset{}
    ensures Freed(Reset(slot).events) == Held(slot)
    ensures HandedOver(Reset(slot).events) == multiset{}
  {
  }

  /** Draining a held frame delivers it to ethernet_input once, re-arms
      reception once, frees it exactly when the stack refused it, and runs
      the timers once; the slot ends empty. */
  lemma DrainDeliversOnce(p: Pbuf, inputOk: bool)
    ensures var r := Drain(Some(p), inputOk);
      r.slot == None &&
      multiset(r.events)[EthernetInput(p, inputOk)] == 1 &&
      multiset(r.events)[EthernetInput(p, !inputOk)] == 0 &&
      multiset(r.events)[RecvRenew] == 1 &&
      multiset(r.events)[CheckTimeouts] == 1 &&
      multiset(r.events)[PbufFree(p)] == (if inputOk then 0 else 1) &&
      r.events[|r.events| - 1] == CheckTimeouts
  {
  }

  /** The frames handed to ethernet_input, in order. */
  function Delivered(trace: seq<Event>): seq<Pbuf>
  {
    if trace == [] then []
    else (if trace[0].EthernetInput? then [trace[0].p] else []) + Delivered(trace[1..])
  }

  /** A drain hands the held frame, and nothing else, to ethernet_input. */
  lemma DrainDeliversHeld(slot: Option<Pbuf>, inputOk: bool)
    ensures Delivered(Drain(slot, inputOk).events) == match slot case Some(p) => [p] case None => []
  {
    var tail := [RecvRenew, CheckTimeouts];
    assert tail[1..][1..] == [];
    match slot
    case None =>
      assert Drain(slot, inputOk).events[1..] == [];
    case Some(p) =>
      if inputOk {
        assert Drain(slot, inputOk).events[1..] == tail;
      } else {
        var events := Drain(slot, inputOk).events;
        assert events[1..][1..] == tail;
        assert Delivered(events[1..]) == [];
      }
  }

  lemma {:induction false} DeliveredAppend(a: seq<Event>, b: seq<Event>)
    ensures Delivered(a + b) == Delivered(a) + Delivered(b)
  {
    if a == [] {
      assert a + b == b;
    } else {
      assert (a + b)[0] == a[0] && (a + b)[1..] == a[1..] + b;
      DeliveredAppend(a[1..], b);
    }
  }

  /** Draining an empty slot delivers nothing, does not re-arm reception and
      only runs the timers. */
  lemma DrainEmptyOnlyTimers(inputOk: bool)
    ensures Drain(None, inputOk) == Step(None, [CheckTimeouts])
  {
  }

  /** After a reset, a drain finds nothing, whatever was held. */
  lemma ResetThenDrainFindsNothing(slot: Option<Pbuf>, inputOk: bool)
    ensures Drain(Reset(slot).slot, inputOk).events == [CheckTimeouts]
  {
  }

  /** A drain right after a successful offer of a non-empty frame delivers
      exactly that frame's bytes, and leaves the slot empty. */
  lemma OfferThenDrainDelivers(src: seq<byte>, size: uint16, handle: nat, inputOk: bool)
    requires 0 < size <= |src|
    ensures var o := Offer(None, src, size, Some(handle));
      o.accepted &&
      var d := Drain(o.slot, inputOk);
      d.slot == None && d.events[0] == EthernetInput(Pbuf(handle, src[..size]), inputOk)
  {
  }

  /** A 64-byte frame offered to an empty slot is kept; a second offer
      before the service step is refused; the service step then delivers
      one 64-byte frame. */
  lemma SixtyFourByteScenario(frame: seq<byte>, handle: nat, second: seq<byte>, secondSize: uint16,
                               secondAlloc: Option<nat>, inputOk: bool)
    requires |frame| == 64 && secondSize <= |second|
    ensures var first := Offer(None, frame, 64, Some(handle));
      var again := Offer(first.slot, second, secondSize, secondAlloc);
      var drained := Drain(again.slot, inputOk);
      first.accepted && !again.accepted &&
      drained.events[0] == EthernetInput(Pbuf(handle, frame), inputOk) &&
      |drained.events[0].p.payload| == 64 &&
      multiset(drained.events)[EthernetInput(Pbuf(handle, frame), inputOk)] == 1
  {
  }
}
