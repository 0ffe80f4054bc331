/**
 * The multicast send queue and the tracked-peer list of NioPhysicalNetwork.
 * Packets wait in a FIFO queue; each time the multicast channel is writable
 * only the head packet is tried, and it leaves the queue once it is fully
 * sent or the send failed. Write interest is switched off whenever the queue
 * runs dry. Opened connections are tracked until they are closed, and closing
 * the network closes every tracked peer, then the selector, then the channel.
 */
module NioNetwork {
  import opened Wrappers
  import opened SelectorKeys

  /** The state of a packet's completion future. */
  datatype Completion = Pending | Succeeded | Failed

  /** A queued packet: the bytes still unsent and the index of its completion. */
  datatype OutgoingPacket = OutgoingPacket(remaining: nat, completion: nat)

  /** What one send on the multicast channel did: wrote some bytes, or threw an IOException. */
  datatype SendResult = Wrote(count: nat) | IOError

  /** Something done to a resource the network owns, in order. */
  datatype Event = PeerClosed(peer: nat) | SelectorClosed | MulticastChannelClosed

  /** The bytes of a packet still unsent after a send that wrote `count` of them. */
  function Left(remaining: nat, count: nat): (r: nat)
    ensures r <= remaining && (r == 0 <==> count >= remaining)
  {
    if count >= remaining then 0 else remaining - count
  }

  /** The events of closing each of the given peers, in order. */
  function ClosedEvents(peers: seq<nat>): (r: seq<Event>)
    ensures |r| == |peers| && forall k | 0 <= k < |peers| :: r[k] == PeerClosed(peers[k])
  {
    if peers == [] then [] else ClosedEvents(peers[..|peers| - 1]) + [PeerClosed(peers[|peers| - 1])]
  }

  /** List.indexOf: the first position holding the peer, or the length when there is none. */
  function IndexOf(peers: seq<nat>, peer: nat): (k: nat)
    ensures k <= |peers| && (k < |peers| <==> peer in peers)
    ensures k < |peers| ==> peers[k] == peer
    ensures forall i | 0 <= i < k :: peers[i] != peer
  {
    if peers == [] then 0
    else if peers[0] == peer then 0
    else 1 + IndexOf(peers[1..], peer)
  }

  /** List.remove(Object): drops the first occurrence, if any, keeping the order of the rest. */
  function RemoveFirst(peers: seq<nat>, peer: nat): (r: seq<nat>)
    ensures peer !in peers ==> r == peers
    ensures peer in peers ==> |r| == |peers| - 1 && multiset(r) == multiset(peers) - multiset{peer}
    ensures var k := IndexOf(peers, peer);
      forall i | 0 <= i < |r| :: r[i] == if i < k then peers[i] else peers[i + 1]
  {
    var k := IndexOf(peers, peer);
    if k == |peers| then peers
    else
      assert peers == peers[..k] + [peer] + peers[k + 1..];
      peers[..k] + peers[k + 1..]
  }

  /** Removing from a list of distinct peers keeps them distinct and drops exactly that peer. */
  lemma RemoveFromDistinct(peers: seq<nat>, peer: nat)
    requires forall i, j | 0 <= i < j < |peers| :: peers[i] != peers[j]
    ensures var r := RemoveFirst(peers, peer);
      && (forall i, j | 0 <= i < j < |r| :: r[i] != r[j])
      && (forall q :: q in r <==> q in peers && q != peer)
  {
    var r, k := RemoveFirst(peers, peer), IndexOf(peers, peer);
    forall q
      ensures q in r <==> q in peers && q != peer
    {
      if q in r {
        var i :| 0 <= i < |r| && r[i] == q;
        assert q == if i < k then peers[i] else peers[i + 1];
      }
      if q in peers && q != peer {
        var j :| 0 <= j < |peers| && peers[j] == q;
        if peer in peers {
          assert j != k;
          assert q == if j < k then r[j] else r[j - 1];
        }
      }
    }
  }

  class NioPhysicalNetwork {
    const multicastKey: NioSelectorKey
    var sendQueue: seq<OutgoingPacket>
    /** Every completion handed out by sendMulticast, by index. */
    var completions: seq<Completion>
    var peers: seq<nat>
    /** The number given to the next opened peer. */
    var nextPeer: nat
    var events: seq<Event>

    /**
     * The queue holds exactly the pending packets, in the order they were
     * sent; every earlier packet has completed; write interest is on exactly
     * while packets wait; tracked peers are distinct and already opened.
     */
    ghost predicate Valid()
      reads this, multicastKey
    {
      && |sendQueue| <= |completions|
      && (forall i | 0 <= i < |sendQueue| :: sendQueue[i].completion == |completions| - |sendQueue| + i)
      && (forall k | 0 <= k < |completions| :: completions[k] == Pending <==> k >= |completions| - |sendQueue|)
      && (sendQueue != [] <==> Has(multicastKey.interestOps, OpWrite))
      && (forall i | 0 <= i < |peers| :: peers[i] < nextPeer)
      && (forall i, j | 0 <= i < j < |peers| :: peers[i] != peers[j])
    }

    /** The channel is registered with no interest, then read interest is switched on. */
    constructor()
      ensures Valid() && fresh(multicastKey)
      ensures multicastKey.interestOps == OpRead
      ensures sendQueue == [] && completions == [] && peers == [] && nextPeer == 0 && events == []
    {
      multicastKey := new NioSelectorKey(0);
      sendQueue := [];
      completions := [];
      peers := [];
      nextPeer := 0;
      events := [];
      new;
      multicastKey.EnableRead();
    }

    /** sendMulticast: queues the packet at the tail and switches write interest on. */
    method SendMulticast(length: nat) returns (completion: nat)
      requires Valid()
      modifies this, multicastKey
      ensures Valid()
      ensures completion == |old(completions)| && completions == old(completions) + [Pending]
      ensures sendQueue == old(sendQueue) + [OutgoingPacket(length, completion)]
      ensures Has(multicastKey.interestOps, OpRead) == Has(old(multicastKey.interestOps), OpRead)
      ensures peers == old(peers) && nextPeer == old(nextPeer) && events == old(events)
    {
      completion := |completions|;
      completions := completions + [Pending];
      sendQueue := sendQueue + [OutgoingPacket(length, completion)];
      multicastKey.EnableWrite();
      FlagsIndependent(old(multicastKey.interestOps));
    }

    /**
     * OutgoingPacket.send on the head packet: a send that leaves no bytes
     * completes it, an I/O error fails it, and either way the packet is
     * finished with; otherwise it stays pending with fewer bytes to go.
     */
    method Send(result: SendResult) returns (finished: bool)
      requires sendQueue != [] && sendQueue[0].completion < |completions|
      modifies this
      ensures var head := old(sendQueue[0]);
        match result
        case IOError =>
          finished && completions == old(completions)[head.completion := Failed] && sendQueue == old(sendQueue)
        case Wrote(count) =>
          && finished == (Left(head.remaining, count) == 0)
          && (finished ==> completions == old(completions)[head.completion := Succeeded] && sendQueue == old(sendQueue))
          && (!finished ==>
                completions == old(completions)
                && sendQueue == old(sendQueue)[0 := head.(remaining := Left(head.remaining, count))])
      ensures peers == old(peers) && nextPeer == old(nextPeer) && events == old(events)
    {
      var head := sendQueue[0];
      match result {
        case IOError =>
          completions := completions[head.completion := Failed];
          finished := true;
        case Wrote(count) =>
          var left := Left(head.remaining, count);
          if left == 0 {
            completions := completions[head.completion := Succeeded];
            finished := true;
          } else {
            sendQueue := sendQueue[0 := head.(remaining := left)];
            finished := false;
          }
      }
    }

    /**
     * handleWritable: tries the head packet only and drops it once it is
     * finished with; write interest goes off when the queue is empty.
     */
    method HandleWritable(result: SendResult)
      requires Valid()
      modifies this, multicastKey
      ensures Valid()
      ensures old(sendQueue) == [] ==> sendQueue == [] && completions == old(completions)
      ensures old(sendQueue) != [] ==>
        var head := old(sendQueue[0]);
        match result
        case IOError =>
          sendQueue == old(sendQueue[1..]) && completions == old(completions)[head.completion := Failed]
        case Wrote(count) =>
          if Left(head.remaining, count) == 0
          then sendQueue == old(sendQueue[1..]) && completions == old(completions)[head.completion := Succeeded]
          else sendQueue == [head.(remaining := Left(head.remaining, count))] + old(sendQueue[1..])
               && completions == old(completions)
      ensures sendQueue == [] ==> !Has(multicastKey.interestOps, OpWrite)
      ensures Has(multicastKey.interestOps, OpRead) == Has(old(multicastKey.interestOps), OpRead)
      ensures peers == old(peers) && nextPeer == old(nextPeer) && events == old(events)
    {
      if sendQueue != [] {
        var finished := Send(result);
        if finished {
          sendQueue := sendQueue[1..];
        } else {
          assert sendQueue == [sendQueue[0]] + old(sendQueue[1..]);
        }
      }
      if sendQueue == [] {
        FlagsIndependent(multicastKey.interestOps);
        DisableChangesOnlyTheFlag(multicastKey.interestOps, OpWrite);
        multicastKey.DisableWrite();
      }
    }

    /**
     * openConnection: the new peer is tracked; when opening the socket
     * fails (an UncheckedIOException) nothing is tracked.
     */
    method OpenConnection(ioFails: bool) returns (peer: Option<nat>)
      requires Valid()
      modifies this
      ensures Valid()
      ensures ioFails ==> peer.None? && peers == old(peers) && nextPeer == old(nextPeer)
      ensures !ioFails ==>
        && peer == Some(old(nextPeer)) && peer.value !in old(peers)
        && peers == old(peers) + [peer.value] && nextPeer == old(nextPeer) + 1
      ensures sendQueue == old(sendQueue) && completions == old(completions) && events == old(events)
    {
      if ioFails {
        return None;
      }
      peer := Some(nextPeer);
      peers := peers + [nextPeer];
      nextPeer := nextPeer + 1;
    }

    /** Closing the wrapper openConnection returned closes the peer, then stops tracking it. */
    method ConnectionClosed(peer: nat)
      requires Valid()
      modifies this
      ensures Valid()
      ensures peers == RemoveFirst(old(peers), peer)
      ensures peer !in peers && forall q :: q in peers <==> q in old(peers) && q != peer
      ensures sendQueue == old(sendQueue) && completions == old(completions)
      ensures nextPeer == old(nextPeer) && events == old(events) + [PeerClosed(peer)]
    {
      events := events + [PeerClosed(peer)];
      RemoveFromDistinct(peers, peer);
      peers := RemoveFirst(peers, peer);
    }

    /** close: every tracked peer in order, then the selector, then the multicast channel. */
    method Close()
      requires Valid()
      modifies this
      ensures Valid()
      ensures events == old(events) + ClosedEvents(peers) + [SelectorClosed, MulticastChannelClosed]
      ensures peers == old(peers) && sendQueue == old(sendQueue) && completions == old(completions)
    {
      var i := 0;
      while i < |peers|
        invariant 0 <= i <= |peers|
        invariant events == old(events) + ClosedEvents(peers[..i])
        invariant Valid() && peers == old(peers)
        invariant sendQueue == old(sendQueue) && completions == old(completions)
      {
        assert peers[..i + 1] == peers[..i] + [peers[i]];
        events := events + [PeerClosed(peers[i])];
        i := i + 1;
      }
      assert peers[..i] == peers;
      events := events + [SelectorClosed, MulticastChannelClosed];
    }
  }

  /**
   * Packets complete in the order they were sent: once a packet has
   * completed, so has every packet sent before it.
   */
  lemma CompletesInOrder(n: NioPhysicalNetwork, i: nat, j: nat)
    requires n.Valid() && i < j < |n.completions| && n.completions[j] != Pending
    ensures n.completions[i] != Pending
  {
  }

  /**
   * Two packets of 10 and 5 bytes: a send of 4 bytes leaves the first
   * waiting, a send of the other 6 completes it, an I/O error fails the
   * second, and the empty queue switches write interest off.
   */
  method SendQueueScenario() returns (completions: seq<Completion>, writeInterest: bool)
    ensures completions == [Succeeded, Failed] && !writeInterest
  {
    var network := new NioPhysicalNetwork();
    var first := network.SendMulticast(10);
    var second := network.SendMulticast(5);
    network.HandleWritable(Wrote(4));
    assert network.sendQueue == [OutgoingPacket(6, 0), OutgoingPacket(5, 1)];
    network.HandleWritable(Wrote(6));
    network.HandleWritable(IOError);
    completions := network.completions;
    writeInterest := Has(network.multicastKey.interestOps, OpWrite);
  }
}
