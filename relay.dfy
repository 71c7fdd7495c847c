/**
 * router-02, the forward-only draft: every packet with a whole IPv6 header
 * and a hop limit above 1 is staged, hop limit decremented, in the arrival
 * tty's packet buffer behind a one-send-at-a-time flag, and a send thread
 * writes it back out on that tty.
 */
module Relay {
  import opened Bytes
  import opened Ipv6
  import Slip
  import Router

  /** struct packet_buffer: a MAX_SLIP_SIZE data area, the used size, the tty and the destination. */
  datatype PacketBuffer = PacketBuffer(data: seq<byte>, size: int, tty: int, dest: Address)

  /** A packet buffer as static storage starts: all zero. */
  function ZeroBuffer(): (b: PacketBuffer)
    ensures |b.data| == Slip.MaxSlipSize && b.size == 0
  {
    PacketBuffer(seq(Slip.MaxSlipSize, _ => 0), 0, 0, seq(16, _ => 0))
  }

  /** What receive_handler did with a packet. */
  datatype Outcome =
    | TooShort          // shorter than the IPv6 header: dropped
    | HopLimitExpired   // hop limit 0 or 1: dropped
    | Busy              // a send is already running on this tty: dropped
    | Started           // staged and a send thread started
    | SpawnFailed       // staged, but the send thread could not be created

  /** The copy receive_handler would send, if any: there is no check for local destinations. */
  function Relayed(pkt: seq<byte>): (r: Option<seq<byte>>)
    ensures r.Some? ==> |pkt| >= HeaderSize && |r.value| == |pkt| && HopLimit(r.value) == HopLimit(pkt) - 1
    ensures r.Some? ==> Source(r.value) == Source(pkt) && Destination(r.value) == Destination(pkt)
  {
    if |pkt| < HeaderSize || pkt[7] <= 1 then None else Some(Decremented(pkt))
  }

  /**
   * packet_to_send[tty] after staging `copy`: its first |copy| data bytes
   * replaced, the rest as they were, size |copy|, and the copy's destination.
   */
  function Staged(b: PacketBuffer, copy: Packet, tty: int): (r: PacketBuffer)
    requires |copy| <= |b.data|
    ensures |r.data| == |b.data| && r.data[..|copy|] == copy && r.data[|copy|..] == b.data[|copy|..]
    ensures r.size == |copy| && r.tty == tty && r.dest == Destination(copy)
  {
    PacketBuffer(copy + b.data[|copy|..], |copy|, tty, Destination(copy))
  }

  /**
   * For a packet not addressed to router-01 itself, the draft and router-01
   * make the same decision: both forward it exactly when its hop limit is
   * above 1, and both send the same copy.
   */
  lemma AgreesWithRouter(pkt: seq<byte>, locals: seq<Address>)
    requires |pkt| < HeaderSize || !IsForRouter(pkt[24..40], locals)
    ensures Relayed(pkt).Some? <==> Router.Classify(pkt, locals).Forward?
    ensures Relayed(pkt).Some? ==> Relayed(pkt).value == Router.Classify(pkt, locals).copy
  {
  }

  /** The draft forwards even packets addressed to the router itself, which router-01 keeps. */
  lemma ForwardsLocalPackets(pkt: seq<byte>, locals: seq<Address>)
    requires |pkt| >= HeaderSize && pkt[7] > 1 && pkt[24..40] in locals
    ensures Relayed(pkt).Some? && !Router.Classify(pkt, locals).Forward?
  {
  }

  /** send_thread_active and packet_to_send, one of each per tty. */
  class RelayState {
    const active: array<bool>
    const staged: array<PacketBuffer>

    ghost predicate Valid()
      reads this, staged
    {
      && active.Length == Slip.MaxTtys && staged.Length == Slip.MaxTtys
      && forall t :: 0 <= t < staged.Length ==> |staged[t].data| == Slip.MaxSlipSize && staged[t].size <= Slip.MaxSlipSize
    }

    constructor ()
      ensures Valid() && fresh(active) && fresh(staged)
      ensures forall t :: 0 <= t < Slip.MaxTtys ==> !active[t] && staged[t] == ZeroBuffer()
    {
      active := new bool[Slip.MaxTtys](_ => false);
      staged := new PacketBuffer[Slip.MaxTtys](_ => ZeroBuffer());
    }

    /**
     * receive_handler for a packet SLIP delivered on `tty`. `spawnOk` is
     * whether pthread_create succeeds.
     */
    method ReceiveHandler(tty: nat, pkt: seq<byte>, spawnOk: bool) returns (outcome: Outcome)
      requires Valid() && tty < Slip.MaxTtys && |pkt| <= Slip.MaxSlipSize
      modifies active, staged
      ensures Valid()
      ensures Relayed(pkt).None? ==>
        outcome == (if |pkt| < HeaderSize then TooShort else HopLimitExpired)
      ensures Relayed(pkt).Some? && old(active[tty]) ==> outcome == Busy
      ensures Relayed(pkt).Some? && !old(active[tty]) ==>
        && outcome == (if spawnOk then Started else SpawnFailed)
        && staged[tty] == Staged(old(staged[tty]), Relayed(pkt).value, tty)
        && active[tty] == spawnOk
      ensures outcome !in {Started, SpawnFailed} ==> staged[..] == old(staged[..]) && active[..] == old(active[..])
      ensures forall t :: 0 <= t < Slip.MaxTtys && t != tty ==> staged[t] == old(staged[t]) && active[t] == old(active[t])
    {
      if |pkt| < HeaderSize {
        return TooShort;
      }
      var hopLimit := HopLimit(pkt);
      if hopLimit <= 1 {
        return HopLimitExpired;
      }
      var modified := WithHopLimit(pkt, hopLimit - 1);
      if active[tty] {
        return Busy;
      }
      staged[tty] := Staged(staged[tty], modified, tty);
      active[tty] := true;
      if !spawnOk {
        active[tty] := false;
        return SpawnFailed;
      }
      return Started;
    }

    /**
     * send_thread_func: sends the staged packet if there is one, empties the
     * buffer, and clears the tty's flag either way. `failAt` is the first byte
     * write the line refuses, if any.
     */
    method SendThreadFunc(tty: nat, failAt: Option<nat>) returns (sent: bool, written: seq<byte>)
      requires Valid() && tty < Slip.MaxTtys
      modifies active, staged
      ensures Valid() && !active[tty]
      ensures sent <==> old(staged[tty].size) > 0
      ensures sent ==> staged[tty] == old(staged[tty]).(size := 0)
      ensures !sent ==> staged[tty] == old(staged[tty]) && written == []
      ensures sent && 0 < old(staged[tty].size) <= Slip.MaxSlipSend && failAt.None? ==>
        written == Slip.Frame(old(staged[tty].data[..staged[tty].size]))
      ensures sent && old(staged[tty].size) > Slip.MaxSlipSend ==> written == []
      ensures forall t :: 0 <= t < Slip.MaxTtys && t != tty ==> staged[t] == old(staged[t]) && active[t] == old(active[t])
    {
      sent, written := false, [];
      var packet := staged[tty];
      if packet.size > 0 {
        var result;
        result, written := Slip.WriteSlipData(packet.data, packet.size, failAt);
        staged[tty] := packet.(size := 0);
        sent := true;
      }
      active[tty] := false;
    }
  }
}
