/** Sending a chat message: look the recipient's identifier up and deliver only to its owner. */
module ChatClients {
  import opened Ring
  import opened Identifier
  import opened Routing
  import opened NodeCodec
  import opened FingerTables
  import opened Nodes

  class ChatClient {
    const node: LocalNode

    constructor (node: LocalNode)
      ensures this.node == node
    {
      this.node := node;
    }

    /** A message is sent exactly if the lookup finds the recipient: only to members, and to every
        member that no successor pointer jumps over. What the recipient then gets is the message
        itself if it is the sender or a char carries the frame's length, otherwise as much of it as
        the char says, if it says anything; nobody else gets anything. */
    method Send(net: Network, id: Id, message: seq<Byte>, signed: bool) returns (sent: bool, ghost got: seq<seq<Byte>>)
      requires net.Valid() && net.Has(node) && node.finger.Valid()
      modifies net.Arrays(), net.Locals()`inbox
      ensures net.Valid() && WellFormed(net.tables)
      ensures node.self.id in net.tables && (sent <==> Lookup(net.tables, node.self.id, id) == id)
      ensures (sent ==> id in net.nodes) && (id in net.nodes && NotPassed(net.tables, id) ==> sent)
      ensures forall i {:trigger net.At(i)} :: i in net.nodes ==> net.At(i) in net.Locals()
      ensures forall i {:trigger net.At(i)} :: i in net.nodes ==>
        net.At(i).inbox == old(net.At(i).inbox) + if i == id then got else []
      ensures !sent ==> got == []
      ensures sent && (id == node.self.id || 1 + |message| <= MaxLength(signed)) ==> got == [message]
      ensures sent && id != node.self.id && 1 + |message| > MaxLength(signed) ==>
        var c := Char(1 + |message|);
        got == if 0 < c <= MaxLength(signed) then [message[..c - 1]] else []
    {
      sent := Transmit(net, id, message, signed);
      got := Share(sent, id == node.self.id, message, signed);
      ShareIs(id == node.self.id, message, signed);
    }

    /** The same, with what the recipient gets given by name. */
    method Transmit(net: Network, id: Id, message: seq<Byte>, signed: bool) returns (sent: bool)
      requires net.Valid() && net.Has(node) && node.finger.Valid()
      modifies net.Arrays(), net.Locals()`inbox
      ensures net.Valid() && WellFormed(net.tables)
      ensures node.self.id in net.tables && (sent <==> Lookup(net.tables, node.self.id, id) == id)
      ensures (sent ==> id in net.nodes) && (id in net.nodes && NotPassed(net.tables, id) ==> sent)
      ensures forall i {:trigger net.At(i)} :: i in net.nodes ==> net.At(i) in net.Locals()
      ensures forall i {:trigger net.At(i)} :: i in net.nodes ==>
        net.At(i).inbox == old(net.At(i).inbox) + Share(sent && i == id, id == node.self.id, message, signed)
    {
      var n := FindOwner(net, id);
      if n.id == id {
        CallReceive(net, n, message, signed);
        return true;
      }
      return false;
    }

    /** The node found for an identifier has that very identifier only if it belongs to a member, and
        it does if no successor pointer jumps over that member. */
    method FindOwner(net: Network, id: Id) returns (n: Node)
      requires net.Valid() && net.Has(node) && node.finger.Valid()
      modifies net.Arrays()
      ensures net.Valid() && WellFormed(net.tables) && (n.id == id ==> id in net.nodes)
      ensures node.self.id in net.tables && n.id == Lookup(net.tables, node.self.id, id)
      ensures id in net.nodes && NotPassed(net.tables, id) ==> n.id == id
    {
      net.MemberFacts(node.self.id);
      net.NearAreArrays(node.self.id, id);
      n := node.FindSuccessor(net, id);
      OwnerIsMember(net.tables, id);
    }

    /** Hands the message to the node behind a handle, and to no other: directly if that is the
        client's own node, otherwise as a frame. */
    method CallReceive(net: Network, n: Node, message: seq<Byte>, signed: bool)
      requires net.Valid() && n.id in net.nodes
      modifies net.Locals()`inbox
      ensures net.Valid()
      ensures forall i {:trigger net.At(i)} :: i in net.nodes ==> net.At(i) in net.Locals()
      ensures forall i {:trigger net.At(i)} :: i in net.nodes ==>
        net.At(i).inbox == old(net.At(i).inbox) + Share(i == n.id, n.id == node.self.id, message, signed)
    {
      var heard := Heard(message, signed);
      if n.id == node.self.id {
        HandOver(net, n.id, message);
      } else if heard.Some? {
        HandOver(net, n.id, heard.value);
      }
    }

    /** Calls the receive function of one node. */
    method HandOver(net: Network, id: Id, message: seq<Byte>)
      requires net.Valid() && id in net.nodes
      modifies net.Locals()`inbox
      ensures net.Valid()
      ensures forall i {:trigger net.At(i)} :: i in net.nodes ==> net.At(i) in net.Locals()
      ensures forall i {:trigger net.At(i)} :: i in net.nodes ==>
        net.At(i).inbox == old(net.At(i).inbox) + if i == id then [message] else []
    {
      net.MemberFacts(id);
      Apart(net);
      net.SlotsKnown(net.nodes[id]);
      var recipient := net.nodes[id];
      assert recipient == net.At(id);
      recipient.Receive(message);
      net.TableMoved(recipient);
    }
  }

  /** Two members are two objects. */
  lemma Apart(net: Network)
    requires net.Valid()
    ensures forall i, j {:trigger net.At(i), net.At(j)} ::
      i in net.nodes && j in net.nodes && i != j ==> net.At(i) != net.At(j)
  {
    forall i, j | i in net.nodes && j in net.nodes && i != j ensures net.At(i) != net.At(j) {
      net.MemberFacts(i);
      net.MemberFacts(j);
    }
  }

  /** What reaches a receive function: at the recipient's node the message itself if that is the
      sender's own, otherwise what the server hears; at any other node nothing. */
  function Share(recipient: bool, own: bool, message: seq<Byte>, signed: bool): seq<seq<Byte>> {
    if !recipient then []
    else if own then [message]
    else if Heard(message, signed).Some? then [Heard(message, signed).value]
    else []
  }

  lemma ShareIs(own: bool, message: seq<Byte>, signed: bool)
    ensures own || 1 + |message| <= MaxLength(signed) ==> Share(true, own, message, signed) == [message]
    ensures !own && 1 + |message| > MaxLength(signed) ==>
      var c := Char(1 + |message|);
      Share(true, own, message, signed) == if 0 < c <= MaxLength(signed) then [message[..c - 1]] else []
  {
    HeardIff(message, signed);
    if 1 + |message| > MaxLength(signed) { HeardPrefix(message, signed); }
  }

  /** The node a lookup finds has the identifier only if it belongs to a member, and from everywhere
      exactly if that is a member no successor pointer jumps over. */
  lemma OwnerIsMember(T: Tables, id: Id)
    requires WellFormed(T) && T != map[]
    ensures forall n {:trigger Lookup(T, n, id)} :: n in T && Lookup(T, n, id) == id ==> id in T
    ensures FoundByAll(T, id, id) <==> id in T && NotPassed(T, id)
  {
    var n :| n in T;
    if id in T {
      MemberFoundIff(T, id);
    } else {
      assert Lookup(T, n, id) != id;
    }
  }
}
