/** The application hooks Protocol calls: custom state and notifications. */
module Handlers {
  import opened Bytes
  import opened Commands
  import Mailbox

  /** A custom-value handler under its contract: validation does not change state and,
      when it accepts, loading the same bytes succeeds and publishes them; a failed load
      changes nothing; saving writes the active bytes. One that `saves` never refuses to.
      What a reset makes of the bytes is the handler's own: the base class leaves them. */
  class CustomValue {
    const size: nat
    const saves: bool
    const accepts: Block -> bool
    const resets: Block -> Block
    const agrees: Packet -> bool
    var active: Block

    ghost predicate Valid()
      reads this
    {
      |active| == size
    }

    constructor (saves: bool, accepts: Block -> bool, resets: Block -> Block, agrees: Packet -> bool, active: Block)
      ensures Valid() && size == |active| && this.active == active
      ensures this.saves == saves && this.accepts == accepts && this.resets == resets && this.agrees == agrees
    {
      this.saves, this.accepts, this.resets, this.agrees := saves, accepts, resets, agrees;
      size, this.active := |active|, active;
    }

    method SaveState() returns (ok: bool, out: Block)
      requires Valid()
      ensures ok ==> out == active
      ensures |out| == size && (saves ==> ok)
    {
      ok := *;
      ok := ok || saves;
      out := active;
    }

    method ValidateState(state: Block) returns (ok: bool)
      requires |state| == size
      ensures ok == accepts(state)
    {
      ok := accepts(state);
    }

    method LoadState(state: Block) returns (ok: bool)
      requires Valid() && |state| == size
      modifies this
      ensures Valid() && (accepts(state) ==> ok)
      ensures active == if ok then state else old(active)
    {
      ok := accepts(state);
      if ok {
        active := state;
      }
    }

    method Reset()
      requires Valid()
      modifies this
      ensures Valid() && active == Rewritten(resets, old(active))
    {
      active := Rewritten(resets, active);
    }

    /** Set and get exchange a packet with the host, behind its opcode; set may change the
        state, but not when it refuses. */
    method Set(packet: array<byte>) returns (ok: bool)
      requires Valid() && packet.Length == PACKET_SIZE
      modifies this, packet
      ensures Valid() && packet[0] == old(packet[0]) && (!ok ==> active == old(active))
    {
      ok := *;
      var value: Block := *;
      if ok && |value| == size {
        active := value;
      }
      WriteReply(packet);
    }

    method Get(packet: array<byte>) returns (ok: bool)
      requires Valid() && packet.Length == PACKET_SIZE
      modifies packet
      ensures Valid() && packet[0] == old(packet[0])
    {
      ok := *;
      WriteReply(packet);
    }

    /** Any reply behind the opcode. */
    method WriteReply(packet: array<byte>)
      requires packet.Length == PACKET_SIZE
      modifies packet
      ensures packet[0] == old(packet[0])
    {
      for i := 1 to PACKET_SIZE
        invariant packet[0] == old(packet[0])
      {
        var b: byte := *;
        packet[i] := b;
      }
    }

    /** Whether the handler agrees to a save that the host asks for. */
    method Save(packet: array<byte>) returns (ok: bool)
      requires packet.Length == PACKET_SIZE
      ensures ok == agrees(packet[..])
    {
      ok := agrees(packet[..]);
    }
  }

  datatype Notice =
    | LayoutOptionsChanged(options: bv32)
    | Changed
    | DeviceIndication(value: byte)

  /** What a bootloader jump reaches, with the number of jumps made. */
  class Bootloader {
    var jumps: nat
  }

  /** The application's callbacks, in the order they were made, and its bootloader. */
  class Callbacks {
    const bootloader: Bootloader
    var notices: seq<Notice>

    constructor (bootloader: Bootloader)
      ensures this.bootloader == bootloader && notices == []
    {
      this.bootloader, notices := bootloader, [];
    }

    method Notify(notice: Notice)
      modifies this
      ensures notices == old(notices) + [notice]
    {
      notices := notices + [notice];
    }

    method BootloaderJump()
      modifies bootloader
      ensures bootloader.jumps == old(bootloader.jumps) + 1
    {
      bootloader.jumps := bootloader.jumps + 1;
    }
  }

  /** The host's end of the packet pipe, with the history of what passed. Each send is
      recorded with the number of responses accepted before it; `polls` and `checks` count
      how often it was asked for a packet and for completion. A Bluetooth transport receives
      from its mailbox, and `events` are the accesses to that. */
  class Transport {
    const slot: Mailbox.MailboxSlot?
    ghost var events: seq<Mailbox.Event>
    ghost var received: seq<Packet>
    ghost var attempts: seq<(nat, Packet)>
    ghost var sent: seq<Packet>
    ghost var polls: nat
    ghost var checks: nat
    var completed: bool

    /** What was received is what the mailbox handed over. */
    ghost predicate Linked()
      reads this, slot, if slot == null then {} else {slot.requestBuffer}
    {
      slot != null ==>
        slot.Valid() && Mailbox.Run(events).slot == slot.View() && Mailbox.Run(events).delivered == received
    }

    constructor (slot: Mailbox.MailboxSlot?)
      requires slot != null ==> slot.Valid() && slot.View() == Mailbox.Begin().slot
      ensures this.slot == slot && Linked() && events == [] && received == [] && sent == [] && attempts == []
    {
      this.slot := slot;
      events, received, sent, attempts, polls, checks := [], [], [], [], 0, 0;
      completed := false;
    }

    lemma OneMore(before: seq<Mailbox.Event>, e: Mailbox.Event)
      ensures Mailbox.Run(before + [e]) == Mailbox.Book(Mailbox.Run(before), e)
    {
      hide Mailbox.Book;
      assert (before + [e])[..|before|] == before;
    }

    /** The Bluetooth stack delivers a write or a disconnect. */
    method OnWrite(value: Block, locked: bool)
      requires Linked() && slot != null
      modifies this`events, slot, slot.requestBuffer
      ensures Linked() && events == old(events) + [Mailbox.Write(value, locked)]
    {
      hide Mailbox.Run, Mailbox.Step;
      slot.OnWrite(value, locked);
      OneMore(events, Mailbox.Write(value, locked));
      events := events + [Mailbox.Write(value, locked)];
    }

    method OnDisconnect(locked: bool)
      requires Linked() && slot != null
      modifies this`events, slot
      ensures Linked() && events == old(events) + [Mailbox.Disconnect(locked)]
    {
      hide Mailbox.Run, Mailbox.Step;
      slot.OnDisconnect(locked);
      OneMore(events, Mailbox.Disconnect(locked));
      events := events + [Mailbox.Disconnect(locked)];
    }

    /** A packet may have arrived. */
    method Receive(packet: array<byte>) returns (ok: bool)
      requires packet.Length == PACKET_SIZE && Linked() && (slot != null ==> packet != slot.requestBuffer)
      modifies this, slot, packet
      ensures Linked() && old(events) <= events
      ensures sent == old(sent) && attempts == old(attempts) && completed == old(completed)
      ensures polls == old(polls) + 1 && checks == old(checks)
      ensures received == if ok then old(received) + [packet[..]] else old(received)
      ensures !ok ==> packet[..] == old(packet[..])
    {
      hide Mailbox.Run, Mailbox.Step;
      polls := polls + 1;
      if slot != null {
        var locked: bool := *;
        ok := slot.ReceivePacket(packet, locked);
        OneMore(events, Mailbox.Receive(locked));
        events := events + [Mailbox.Receive(locked)];
      } else {
        ok := *;
        if ok {
          ReadAny(packet);
        }
      }
      if ok {
        received := received + [packet[..]];
      }
    }

    /** A packet from elsewhere. */
    method ReadAny(packet: array<byte>)
      modifies packet
    {
      for i := 0 to packet.Length {
        var b: byte := *;
        packet[i] := b;
      }
    }

    /** The endpoint takes the packet or asks for it again later. */
    method Send(packet: array<byte>) returns (ok: bool)
      requires packet.Length == PACKET_SIZE
      modifies this`attempts, this`sent
      ensures attempts == old(attempts) + [(|old(sent)|, packet[..])]
      ensures sent == if ok then old(sent) + [packet[..]] else old(sent)
    {
      ok := *;
      attempts := attempts + [(|sent|, packet[..])];
      if ok {
        sent := sent + [packet[..]];
      }
    }

    /** Whether the last accepted packet has left. */
    method SendComplete() returns (ok: bool)
      modifies this`completed, this`checks
      ensures ok == completed && checks == old(checks) + 1
    {
      completed := *;
      checks := checks + 1;
      ok := completed;
    }

    /** What a Bluetooth transport received are packets that were written under the mutex,
        in the order of their writes and each once. */
    lemma ReceivedWrites() returns (from: seq<nat>)
      requires Linked() && slot != null
      ensures |from| == |received|
      ensures forall k :: 0 <= k < |from| ==> Mailbox.Wrote(events, from[k], received[k])
      ensures forall k, m :: 0 <= k < m < |from| ==> from[k] < from[m]
    {
      hide Mailbox.Run, Mailbox.Wrote;
      var last;
      from, last := Mailbox.InOrder(events);
    }
  }
}
