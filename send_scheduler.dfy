/**
 * The per-interface send guard of router-01: each interface has one slot
 * that is either idle or busy sending one packet. queue_send drops a packet
 * offered to a busy slot; send_thread writes the packet as a SLIP frame and
 * frees the slot whatever the write returned.
 */
module Scheduler {
  import opened Bytes
  import Slip

  /** send_slots[fd].in_use, together with the copy the send thread owns while it is set. */
  datatype Slot = Idle | Sending(packet: seq<byte>)

  /** queue_send on one slot: the new slot and whether the packet was taken. */
  function Submit(s: Slot, packet: seq<byte>): (r: (Slot, bool))
    ensures r.0.Sending?
    ensures r.1 <==> s.Idle?
    ensures r.1 ==> r.0.packet == packet
  {
    if s.Sending? then (s, false) else (Sending(packet), true)
  }

  /** What happens to one slot over time: a packet is queued, or its send thread finishes. */
  datatype Event = Queue(packet: seq<byte>) | Finish

  /**
   * The slot after `events`, with the number of packets taken and the number
   * of sends finished. A Finish with no send thread running changes nothing.
   */
  function Run(s: Slot, events: seq<Event>): (r: (Slot, nat, nat))
    ensures r.2 <= |events| && r.1 <= |events|
  {
    if events == [] then (s, 0, 0)
    else
      var (s', accepted, finished) := Run(s, events[..|events| - 1]);
      match events[|events| - 1]
      case Queue(p) =>
        var (s'', ok) := Submit(s', p);
        (s'', accepted + (if ok then 1 else 0), finished)
      case Finish =>
        if s'.Sending? then (Idle, accepted, finished + 1) else (s', accepted, finished)
  }

  /** A busy slot drops what it is offered and keeps the packet it is sending. */
  lemma SubmitBusyDrops(s: Slot, packet: seq<byte>)
    requires s.Sending?
    ensures Submit(s, packet) == (s, false)
  {
  }

  /**
   * From an idle slot, every packet taken is either finished or is the one in
   * flight: at most one send per interface is ever outstanding.
   */
  lemma {:induction false} AtMostOneInFlight(events: seq<Event>)
    ensures var (s, accepted, finished) := Run(Idle, events);
      accepted == finished + (if s.Sending? then 1 else 0)
    decreases |events|
  {
    if events != [] {
      AtMostOneInFlight(events[..|events| - 1]);
    }
  }

  /** Two packets queued back to back on an idle slot: the first is sent, the second dropped. */
  lemma SecondQueueDropped(p: seq<byte>, q: seq<byte>)
    ensures Run(Idle, [Queue(p), Queue(q)]) == (Sending(p), 1, 0)
  {
    assert [Queue(p)][..0] == [];
    assert Run(Idle, [Queue(p)]) == (Sending(p), 1, 0);
    assert [Queue(p), Queue(q)][..1] == [Queue(p)];
  }

  /** send_slots for every tty. */
  class SendSlots {
    const slots: array<Slot>

    ghost predicate Valid()
      reads this
    {
      slots.Length == Slip.MaxTtys
    }

    /** initialize_send_locks: every slot starts idle. */
    constructor ()
      ensures Valid() && fresh(slots)
      ensures forall fd :: 0 <= fd < slots.Length ==> slots[fd] == Idle
    {
      slots := new Slot[Slip.MaxTtys](_ => Idle);
    }

    /**
     * queue_send: a busy interface drops the packet and nothing changes; an
     * idle one becomes busy with a copy of the packet.
     */
    method QueueSend(fd: nat, packet: seq<byte>) returns (accepted: bool)
      requires Valid() && fd < slots.Length
      modifies slots
      ensures accepted <==> old(slots[fd]).Idle?
      ensures (slots[fd], accepted) == Submit(old(slots[fd]), packet)
      ensures forall g :: 0 <= g < slots.Length && g != fd ==> slots[g] == old(slots[g])
    {
      if slots[fd].Sending? {
        return false;
      }
      slots[fd] := Sending(packet);
      return true;
    }

    /**
     * send_thread: writes the slot's packet as a SLIP frame, then frees the
     * slot whether or not the write succeeded. `failAt` is the first byte
     * write the line refuses, if any.
     */
    method SendThread(fd: nat, failAt: Option<nat>) returns (result: int, written: seq<byte>)
      requires Valid() && fd < slots.Length && slots[fd].Sending?
      modifies slots
      ensures var p := old(slots[fd]).packet;
        && (|p| == 0 || |p| > Slip.MaxSlipSend ==> result == -1 && written == [])
        && (0 < |p| <= Slip.MaxSlipSend && failAt.None? ==> result == |p| && written == Slip.Frame(p))
        && (result != -1 ==> written == Slip.Frame(p))
      ensures slots[fd] == Idle
      ensures forall g :: 0 <= g < slots.Length && g != fd ==> slots[g] == old(slots[g])
    {
      var p := slots[fd].packet;
      assert p[..|p|] == p;
      result, written := Slip.WriteSlipData(p, |p|, failAt);
      slots[fd] := Idle;
    }
  }
}
