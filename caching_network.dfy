/**
 * CachingPhysicalNetwork: a physical network that keeps one connection per
 * remote address. Opening a connection asks the delegate network only for an
 * address it has nothing for; a connection received from an address replaces
 * whatever was kept for it. Entries are never removed.
 */
module CachingNetwork {
  import opened FrameHeader

  /** An InetAddress, by its bytes. */
  type Address = seq<Byte>

  /** A physical peer handed in by a caller, by identity. */
  type PeerRef = nat

  /** What is kept for an address. */
  datatype Connection =
    | Opened(serial: nat)          // the result of the delegate's serial-th openConnection
    | Accepted(initiator: PeerRef) // a connection the remote side opened

  /** A call made on the delegate network, in order. */
  datatype DelegateCall =
    | OpenConnection(address: Address, initiator: PeerRef)
    | SendMulticast(packet: seq<Byte>)
    | CloseNetwork

  /** A call made on the listener above, in order. */
  datatype ListenerCall =
    | ReceiveMulticast(sender: Address, packet: seq<Byte>)
    | ReceiveConnection(address: Address, initiator: PeerRef)

  /** The number of openConnection calls in a delegate trace. */
  function Opens(calls: seq<DelegateCall>): (n: nat)
    ensures n <= |calls|
  {
    if calls == [] then 0
    else Opens(calls[..|calls| - 1]) + (if calls[|calls| - 1].OpenConnection? then 1 else 0)
  }

  class CachingPhysicalNetwork {
    var peers: map<Address, Connection>
    var delegateCalls: seq<DelegateCall>
    var listenerCalls: seq<ListenerCall>
    /** The addresses the protocol-violation warning was logged for. */
    var warnings: seq<Address>

    /** Every kept delegate connection is one the delegate actually opened. */
    ghost predicate Valid()
      reads this
    {
      forall a | a in peers && peers[a].Opened? :: peers[a].serial < Opens(delegateCalls)
    }

    constructor()
      ensures Valid() && peers == map[] && delegateCalls == [] && listenerCalls == [] && warnings == []
    {
      peers := map[];
      delegateCalls := [];
      listenerCalls := [];
      warnings := [];
    }

    /** receiveMulticast passes straight through to the listener. */
    method ReceiveMulticast(sender: Address, packet: seq<Byte>)
      modifies this
      ensures listenerCalls == old(listenerCalls) + [ListenerCall.ReceiveMulticast(sender, packet)]
      ensures peers == old(peers) && delegateCalls == old(delegateCalls) && warnings == old(warnings)
    {
      listenerCalls := listenerCalls + [ListenerCall.ReceiveMulticast(sender, packet)];
    }

    /**
     * receiveConnection keeps the initiator for the address, replacing any
     * earlier entry, warns exactly when there was one, and always forwards
     * to the listener.
     */
    method ReceiveConnection(address: Address, initiator: PeerRef)
      requires Valid()
      modifies this
      ensures Valid()
      ensures peers == old(peers)[address := Accepted(initiator)]
      ensures warnings == old(warnings) + (if address in old(peers) then [address] else [])
      ensures listenerCalls == old(listenerCalls) + [ListenerCall.ReceiveConnection(address, initiator)]
      ensures delegateCalls == old(delegateCalls)
    {
      var existed := address in peers;
      peers := peers[address := Accepted(initiator)];
      if existed {
        warnings := warnings + [address];
      }
      listenerCalls := listenerCalls + [ListenerCall.ReceiveConnection(address, initiator)];
    }

    /** sendMulticast passes straight through to the delegate. */
    method SendMulticast(packet: seq<Byte>)
      requires Valid()
      modifies this
      ensures Valid()
      ensures delegateCalls == old(delegateCalls) + [DelegateCall.SendMulticast(packet)]
      ensures peers == old(peers) && listenerCalls == old(listenerCalls) && warnings == old(warnings)
    {
      delegateCalls := delegateCalls + [DelegateCall.SendMulticast(packet)];
      assert Opens(delegateCalls) == Opens(old(delegateCalls));
    }

    /**
     * openConnection answers the connection kept for the address; only when
     * there is none does it ask the delegate, and then keeps the answer.
     */
    method OpenConnection(address: Address, initiator: PeerRef) returns (c: Connection)
      requires Valid()
      modifies this
      ensures Valid()
      ensures address in old(peers) ==>
        c == old(peers)[address] && peers == old(peers) && delegateCalls == old(delegateCalls)
      ensures address !in old(peers) ==>
        && c == Opened(Opens(old(delegateCalls)))
        && peers == old(peers)[address := c]
        && delegateCalls == old(delegateCalls) + [DelegateCall.OpenConnection(address, initiator)]
      ensures listenerCalls == old(listenerCalls) && warnings == old(warnings)
    {
      if address in peers {
        c := peers[address];
      } else {
        c := Opened(Opens(delegateCalls));
        delegateCalls := delegateCalls + [DelegateCall.OpenConnection(address, initiator)];
        peers := peers[address := c];
      }
    }

    /** close closes the delegate network. */
    method Close()
      requires Valid()
      modifies this
      ensures Valid()
      ensures delegateCalls == old(delegateCalls) + [CloseNetwork]
      ensures peers == old(peers) && listenerCalls == old(listenerCalls) && warnings == old(warnings)
    {
      delegateCalls := delegateCalls + [CloseNetwork];
      assert Opens(delegateCalls) == Opens(old(delegateCalls));
    }
  }

  /**
   * Opening twice to one address asks the delegate once and answers the same
   * connection; opening to two addresses asks twice; opening to an address a
   * connection was received from does not ask at all.
   */
  method CachingScenario(here: Address, there: Address, initiator: PeerRef)
    returns (first: Connection, second: Connection, sameHostOpens: nat,
             twoHostOpens: nat, afterReceiveOpens: nat, afterReceive: Connection)
    requires here != there
    ensures first == second && sameHostOpens == 1
    ensures twoHostOpens == 2
    ensures afterReceiveOpens == 0 && afterReceive == Accepted(initiator)
  {
    var network := new CachingPhysicalNetwork();
    first := network.OpenConnection(here, 0);
    second := network.OpenConnection(here, 0);
    sameHostOpens := Opens(network.delegateCalls);

    network := new CachingPhysicalNetwork();
    var a := network.OpenConnection(here, 0);
    var b := network.OpenConnection(there, 0);
    twoHostOpens := Opens(network.delegateCalls);

    network := new CachingPhysicalNetwork();
    network.ReceiveConnection(here, initiator);
    afterReceive := network.OpenConnection(here, 0);
    afterReceiveOpens := Opens(network.delegateCalls);
  }
}
