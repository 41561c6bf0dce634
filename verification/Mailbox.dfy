/** The one-slot mailbox between the Bluetooth callbacks and the main loop: every access
    happens under one mutex, which may also refuse. */
module Mailbox {
  import opened Bytes
  import opened Buffers

  const PACKET: nat := 32

  datatype Slot = Slot(pending: bool, buffer: Block, dropped: uint32)

  /** One callback or call, and whether it got the mutex. */
  datatype Event =
    | Write(value: Block, locked: bool)
    | Disconnect(locked: bool)
    | Receive(locked: bool)

  /** Only 32-byte packets count; one that finds the slot full is dropped. */
  function Step(s: Slot, e: Event): (r: Slot)
    requires |s.buffer| == PACKET
    ensures |r.buffer| == PACKET
  {
    match e
    case Write(value, locked) =>
      if |value| != PACKET || !locked then s
      else if s.pending then s.(dropped := Succ(s.dropped))
      else s.(buffer := value, pending := true)
    case Disconnect(locked) => if locked then s.(pending := false) else s
    case Receive(locked) => if locked then s.(pending := false) else s
  }

  /** The packet a receive hands over, if any. */
  function Output(s: Slot, e: Event): seq<Block> {
    if e.Receive? && e.locked && s.pending then [s.buffer] else []
  }

  class MailboxSlot {
    var pendingRequest: bool
    const requestBuffer: array<byte>
    var droppedPackets: uint32

    ghost predicate Valid()
      reads this
    {
      requestBuffer.Length == PACKET
    }

    ghost function View(): (s: Slot)
      requires Valid()
      reads this, requestBuffer
      ensures |s.buffer| == PACKET
    {
      Slot(pendingRequest, requestBuffer[..], droppedPackets)
    }

    constructor ()
      ensures Valid() && fresh(requestBuffer) && View() == Slot(false, seq(PACKET, _ => 0), 0)
    {
      pendingRequest, droppedPackets := false, 0;
      requestBuffer := new byte[PACKET](_ => 0);
    }

    method OnWrite(value: Block, locked: bool)
      requires Valid()
      modifies this, requestBuffer
      ensures Valid() && View() == Step(old(View()), Write(value, locked))
    {
      if |value| != PACKET {
        return;
      }
      if !locked {
        return;
      }
      if pendingRequest {
        droppedPackets := Succ(droppedPackets);
      } else {
        FillBuffer(requestBuffer, value);
        pendingRequest := true;
      }
    }

    method OnDisconnect(locked: bool)
      requires Valid()
      modifies this
      ensures Valid() && View() == Step(old(View()), Disconnect(locked))
    {
      if !locked {
        return;
      }
      pendingRequest := false;
    }

    method ReceivePacket(packet: array<byte>, locked: bool) returns (hasPacket: bool)
      requires Valid() && packet.Length == PACKET && packet != requestBuffer
      modifies this, packet
      ensures Valid() && View() == Step(old(View()), Receive(locked))
      ensures Output(old(View()), Receive(locked)) == if hasPacket then [packet[..]] else []
      ensures !hasPacket ==> packet[..] == old(packet[..])
    {
      if !locked {
        return false;
      }
      hasPacket := false;
      if pendingRequest {
        FillBuffer(packet, requestBuffer[..]);
        pendingRequest := false;
        hasPacket := true;
      }
    }
  }

  // ----- runs

  /** A run so far: the slot, what receives handed over, and what became of the writes
      that got the mutex. */
  datatype Ledger = Ledger(slot: Slot, writes: nat, delivered: seq<Block>, drops: nat, discards: nat)

  function Begin(): (r: Ledger)
    ensures |r.slot.buffer| == PACKET
  {
    Ledger(Slot(false, seq(PACKET, _ => 0), 0), 0, [], 0, 0)
  }

  predicate Counts(e: Event) { e.Write? && e.locked && |e.value| == PACKET }

  function Book(l: Ledger, e: Event): (r: Ledger)
    requires |l.slot.buffer| == PACKET
    ensures |r.slot.buffer| == PACKET
  {
    Ledger(Step(l.slot, e),
           l.writes + (if Counts(e) then 1 else 0),
           l.delivered + Output(l.slot, e),
           l.drops + (if Counts(e) && l.slot.pending then 1 else 0),
           l.discards + (if e.Disconnect? && e.locked && l.slot.pending then 1 else 0))
  }

  function Run(events: seq<Event>): (r: Ledger)
    ensures |r.slot.buffer| == PACKET
  {
    if events == [] then Begin() else Book(Run(events[..|events| - 1]), events[|events| - 1])
  }

  predicate Balanced(l: Ledger) {
    && l.writes == |l.delivered| + l.drops + l.discards + (if l.slot.pending then 1 else 0)
    && l.slot.dropped == l.drops % WORD_LIMIT
  }

  lemma BookBalances(l: Ledger, e: Event)
    requires |l.slot.buffer| == PACKET && Balanced(l)
    ensures Balanced(Book(l, e))
  {
  }

  /** Every write that got the mutex was delivered, dropped, discarded by a disconnect, or
      is pending; the drop counter shows the drops modulo 2^32. Without disconnects nothing
      is discarded. */
  lemma {:induction false} Conservation(events: seq<Event>)
    ensures var r := Run(events);
            && r.writes == |r.delivered| + r.drops + r.discards + (if r.slot.pending then 1 else 0)
            && r.slot.dropped == r.drops % WORD_LIMIT
            && ((forall e :: e in events ==> !e.Disconnect?) ==> r.discards == 0)
  {
    hide Step, Counts, Output;
    if events == [] {
    } else {
      var n := |events| - 1;
      Conservation(events[..n]);
      BookBalances(Run(events[..n]), events[n]);
      assert forall e :: e in events[..n] ==> e in events;
    }
  }

  /** Event number `i` of the run wrote this packet under the mutex. */
  predicate Wrote(events: seq<Event>, i: nat, packet: Block) {
    i < |events| && Counts(events[i]) && events[i].value == packet
  }

  lemma OneAccess(s: Slot, e: Event)
    requires |s.buffer| == PACKET
    ensures Output(s, e) == [] || (Output(s, e) == [s.buffer] && s.pending && !Step(s, e).pending)
    ensures Step(s, e).pending ==>
              if Counts(e) && !s.pending then Step(s, e).buffer == e.value
              else s.pending && Step(s, e).buffer == s.buffer
    ensures Counts(e) ==> Output(s, e) == []
  {
  }

  /** Delivered packets are an in-order, untorn subsequence of the writes, each write
      delivered at most once; a pending packet was written after all of them. */
  lemma {:induction false} InOrder(events: seq<Event>) returns (from: seq<nat>, last: nat)
    ensures var r := Run(events);
            && |from| == |r.delivered|
            && (forall k :: 0 <= k < |from| ==> Wrote(events, from[k], r.delivered[k]))
            && (forall k, m :: 0 <= k < m < |from| ==> from[k] < from[m])
            && (r.slot.pending ==> Wrote(events, last, r.slot.buffer) && forall k :: 0 <= k < |from| ==> from[k] < last)
  {
    if events == [] {
      from, last := [], 0;
    } else {
      var n := |events| - 1;
      from, last := InOrder(events[..n]);
      var before, e := Run(events[..n]), events[n];
      OneAccess(before.slot, e);
      hide Step, Counts, Output;
      if Output(before.slot, e) != [] {
        from := from + [last];
      }
      if Counts(e) && !before.slot.pending {
        last := n;
      }
    }
  }

  // ----- the same accesses byte by byte

  /** What the owner of the mutex is doing. */
  datatype Owner =
    | Free
    | Entered(value: Block)
    | CopyingIn(value: Block, copied: nat)
    | Discarding
    | Looking
    | CopyingOut(got: Block)
    | Leaving

  /** Attempts may come from any task at any time; `Advance` is the next small step of
      whichever task owns the mutex. */
  datatype Small =
    | TryWrite(value: Block, granted: bool)
    | TryDisconnect(granted: bool)
    | TryReceive(granted: bool)
    | Advance

  datatype Fine = Fine(slot: Slot, owner: Owner, delivered: seq<Block>) {
    predicate Sized() {
      && |slot.buffer| == PACKET
      && (owner.Entered? || owner.CopyingIn? ==> |owner.value| == PACKET)
      && (owner.CopyingIn? ==> owner.copied <= PACKET)
      && (owner.CopyingOut? ==> |owner.got| <= PACKET)
    }
  }

  function SmallStep(f: Fine, e: Small): (r: Fine)
    requires f.Sized()
    ensures r.Sized()
  {
    match e
    case TryWrite(value, granted) =>
      if |value| == PACKET && granted && f.owner.Free? then f.(owner := Entered(value)) else f
    case TryDisconnect(granted) => if granted && f.owner.Free? then f.(owner := Discarding) else f
    case TryReceive(granted) => if granted && f.owner.Free? then f.(owner := Looking) else f
    case Advance =>
      match f.owner
      case Free => f
      case Entered(value) =>
        if f.slot.pending then f.(slot := f.slot.(dropped := Succ(f.slot.dropped)), owner := Leaving)
        else f.(owner := CopyingIn(value, 0))
      case CopyingIn(value, k) =>
        if k < PACKET then f.(slot := f.slot.(buffer := f.slot.buffer[k := value[k]]), owner := CopyingIn(value, k + 1))
        else f.(slot := f.slot.(pending := true), owner := Leaving)
      case Discarding => f.(slot := f.slot.(pending := false), owner := Leaving)
      case Looking => if f.slot.pending then f.(owner := CopyingOut([])) else f.(owner := Leaving)
      case CopyingOut(got) =>
        if |got| < PACKET then f.(owner := CopyingOut(got + [f.slot.buffer[|got|]]))
        else f.(slot := f.slot.(pending := false), owner := Leaving, delivered := f.delivered + [got])
      case Leaving => f.(owner := Free)
  }

  function SmallRun(steps: seq<Small>): (r: Fine)
    ensures r.Sized()
  {
    if steps == [] then Fine(Begin().slot, Free, [])
    else SmallStep(SmallRun(steps[..|steps| - 1]), steps[|steps| - 1])
  }

  /** The whole access that takes effect with a small step, if one does. */
  function Effect(f: Fine, e: Small): seq<Event> {
    if !e.Advance? then []
    else match f.owner
      case Entered(value) => if f.slot.pending then [Write(value, true)] else []
      case CopyingIn(value, k) => if k >= PACKET then [Write(value, true)] else []
      case Discarding => [Disconnect(true)]
      case CopyingOut(got) => if |got| >= PACKET then [Receive(true)] else []
      case _ => []
  }

  function Linear(steps: seq<Small>): seq<Event> {
    if steps == [] then []
    else
      var before := steps[..|steps| - 1];
      Linear(before) + Effect(SmallRun(before), steps[|steps| - 1])
  }

  /** The fine state against the whole accesses done so far: a half-copied packet is
      visible only to the owner. */
  predicate Agrees(f: Fine, l: Ledger)
    requires f.Sized() && |l.slot.buffer| == PACKET
  {
    && f.slot.pending == l.slot.pending && f.slot.dropped == l.slot.dropped && f.delivered == l.delivered
    && (f.owner.CopyingIn? ==>
          !f.slot.pending && f.slot.buffer == f.owner.value[..f.owner.copied] + l.slot.buffer[f.owner.copied..])
    && (!f.owner.CopyingIn? ==> f.slot.buffer == l.slot.buffer)
    && (f.owner.CopyingOut? ==> f.slot.pending && f.owner.got == f.slot.buffer[..|f.owner.got|])
  }

  lemma SmallStepAgrees(f: Fine, e: Small, l: Ledger)
    requires f.Sized() && |l.slot.buffer| == PACKET && Agrees(f, l)
    ensures Effect(f, e) == [] ==> Agrees(SmallStep(f, e), l)
    ensures Effect(f, e) != [] ==> |Effect(f, e)| == 1 && Agrees(SmallStep(f, e), Book(l, Effect(f, e)[0]))
  {
    if e.Advance? && f.owner.CopyingIn? {
      var value, k := f.owner.value, f.owner.copied;
      if k < PACKET {
        assert f.slot.buffer[k := value[k]] == value[..k + 1] + l.slot.buffer[k + 1..];
      } else {
        assert f.slot.buffer == value;
      }
    }
    if e.Advance? && f.owner.CopyingOut? && |f.owner.got| == PACKET {
      assert f.owner.got == f.slot.buffer;
    }
  }

  /** However attempts and small steps interleave, the mailbox has done the whole accesses
      in the order they took effect: same pending flag, same drop count, same deliveries. */
  lemma {:induction false} SmallStepsAreAccesses(steps: seq<Small>)
    ensures Agrees(SmallRun(steps), Run(Linear(steps)))
  {
    hide SmallStep, Effect, Agrees, Book;
    if steps == [] {
      AtStart();
    } else {
      var n := |steps| - 1;
      var before, e := steps[..n], steps[n];
      SmallStepsAreAccesses(before);
      SmallStepAgrees(SmallRun(before), e, Run(Linear(before)));
      var effect := Effect(SmallRun(before), e);
      if effect == [] {
        assert Linear(steps) == Linear(before);
      } else {
        assert Linear(steps)[..|Linear(steps)| - 1] == Linear(before);
      }
    }
  }

  lemma AtStart()
    ensures Agrees(SmallRun([]), Run([]))
  {
  }

  /** The packet the present owner has still to write. */
  function InHand(owner: Owner): seq<Block> {
    if owner.Entered? || owner.CopyingIn? then [owner.value] else []
  }

  function Grant(f: Fine, e: Small): seq<Block> {
    if e.TryWrite? && |e.value| == PACKET && e.granted && f.owner.Free? then [e.value] else []
  }

  /** The packets whose write got the mutex, in order. */
  function Granted(steps: seq<Small>): seq<Block> {
    if steps == [] then []
    else
      var before := steps[..|steps| - 1];
      Granted(before) + Grant(SmallRun(before), steps[|steps| - 1])
  }

  function Written(events: seq<Event>): seq<Block> {
    if events == [] then []
    else
      var e := events[|events| - 1];
      Written(events[..|events| - 1]) + if Counts(e) then [e.value] else []
  }

  lemma StepGrants(f: Fine, e: Small)
    requires f.Sized()
    ensures InHand(f.owner) + Grant(f, e) == Written(Effect(f, e)) + InHand(SmallStep(f, e).owner)
    ensures |Effect(f, e)| <= 1
  {
    var effect := Effect(f, e);
    if effect != [] {
      assert Written(effect) == Written([]) + if Counts(effect[0]) then [effect[0].value] else [];
    }
  }

  lemma {:induction false} WrittenAppend(events: seq<Event>, more: seq<Event>)
    requires |more| <= 1
    ensures Written(events + more) == Written(events) + Written(more)
  {
    if more == [] {
      assert events + more == events;
    } else {
      assert (events + more)[..|events + more| - 1] == events && more[..0] == [];
    }
  }

  /** The whole accesses write what the tasks wrote: nothing is invented, lost or moved,
      and at most the packet of the present owner is still to come. */
  lemma {:induction false} EveryGrantIsWritten(steps: seq<Small>)
    ensures Granted(steps) == Written(Linear(steps)) + InHand(SmallRun(steps).owner)
  {
    hide SmallStep, Effect, Grant, InHand, Written;
    if steps == [] {
      NothingInHand();
    } else {
      var n := |steps| - 1;
      var before, e := SmallRun(steps[..n]), steps[n];
      EveryGrantIsWritten(steps[..n]);
      StepGrants(before, e);
      WrittenAppend(Linear(steps[..n]), Effect(before, e));
      var written := Written(Linear(steps[..n]));
      assert written + (InHand(before.owner) + Grant(before, e)) == (written + InHand(before.owner)) + Grant(before, e);
    }
  }

  lemma NothingInHand()
    ensures Written([]) == [] && InHand(Free) == []
  {
  }

  /** Byte by byte and from any number of tasks, no packet is torn, repeated or reordered. */
  lemma NeverTorn(steps: seq<Small>) returns (from: seq<nat>)
    ensures var events, f := Linear(steps), SmallRun(steps);
            && |from| == |f.delivered|
            && (forall k :: 0 <= k < |from| ==> Wrote(events, from[k], f.delivered[k]))
            && (forall k, m :: 0 <= k < m < |from| ==> from[k] < from[m])
  {
    SmallStepsAreAccesses(steps);
    var last;
    from, last := InOrder(Linear(steps));
  }
}
