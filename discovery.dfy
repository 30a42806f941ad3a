/**
 * The listener `Discovery` of wtray/__main__.py: it owns the node registry and
 * the running flag, merges every sysinfo beacon it receives into the registry
 * and calls the caller's `discovered` callback after each one and once more
 * when it stops.
 *
 * The socket, `select` and the clock are replaced by a finite sequence of
 * inputs, one per pass of the receive loop: a datagram that was read, a poll
 * interval that passed without one, or a `stop()` issued by another thread
 * and seen at the top of the next pass. The 31-second window closes when the
 * inputs run out.
 */
module NodeDiscovery {
  import opened Nodes
  import opened Registry

  /** What one pass of the receive loop observes. */
  datatype Input = Datagram(data: seq<bv8>) | Quiet | StopRequest

  /** Byte 0 is the protocol token 255 and byte 1 the message kind 1 (sysinfo). */
  predicate IsSysinfo(data: seq<bv8>)
    requires |data| >= 2
  {
    data[0] == 255 && data[1] == 1
  }

  /**
   * What the loop body needs of a datagram in order not to raise: it reads
   * bytes 0 and 1 of every datagram, and decodes every sysinfo datagram.
   */
  predicate Admissible(data: seq<bv8>) {
    |data| >= 2 && (IsSysinfo(data) ==> Decodable(data))
  }

  predicate AllAdmissible(inputs: seq<Input>) {
    forall j :: 0 <= j < |inputs| && inputs[j].Datagram? ==> Admissible(inputs[j].data)
  }

  /** The number of passes before the first stop request (all of them when there is none). */
  function StopIndex(inputs: seq<Input>): (k: nat)
    ensures k <= |inputs|
    ensures k < |inputs| ==> inputs[k].StopRequest?
    ensures forall j :: 0 <= j < k ==> !inputs[j].StopRequest?
  {
    if inputs == [] || inputs[0].StopRequest? then 0 else 1 + StopIndex(inputs[1..])
  }

  /** The inputs the loop handles before it sees a stop request. */
  function Window(inputs: seq<Input>): seq<Input> {
    inputs[..StopIndex(inputs)]
  }

  /** The nodes decoded from the sysinfo datagrams among `inputs`, in arrival order. */
  function Accepted(inputs: seq<Input>): (ns: seq<Node>)
    requires AllAdmissible(inputs)
    ensures |ns| <= |inputs|
    ensures forall n :: n in ns ==>
      (exists j :: 0 <= j < |inputs| && inputs[j].Datagram? && Admissible(inputs[j].data)
                   && IsSysinfo(inputs[j].data) && Decode(inputs[j].data) == n)
  {
    if inputs == [] then []
    else
      var last := inputs[|inputs| - 1];
      var earlier := Accepted(inputs[..|inputs| - 1]);
      if last.Datagram? && IsSysinfo(last.data) then earlier + [Decode(last.data)] else earlier
  }

  /** One more pass adds the node of that pass's datagram, if it was a sysinfo one. */
  lemma AcceptedExtend(w: seq<Input>, i: nat)
    requires AllAdmissible(w) && i < |w|
    ensures AllAdmissible(w[..i]) && AllAdmissible(w[..i + 1])
    ensures Accepted(w[..i + 1]) == Accepted(w[..i]) +
      (if w[i].Datagram? && IsSysinfo(w[i].data) then [Decode(w[i].data)] else [])
  {
    assert w[..i + 1][..i] == w[..i];
  }

  /** Datagrams of other kinds never reach the decoder or the registry. */
  lemma {:induction false} AcceptedOnlySysinfo(inputs: seq<Input>)
    requires AllAdmissible(inputs)
    requires forall j :: 0 <= j < |inputs| && inputs[j].Datagram? ==> !IsSysinfo(inputs[j].data)
    ensures Accepted(inputs) == []
  {
    if inputs != [] {
      AcceptedOnlySysinfo(inputs[..|inputs| - 1]);
    }
  }

  class Discovery {
    /** `_nodes` */
    var nodes: NodeTable
    /** `_running` */
    var running: bool
    /** How many times `_discovered_func` has been called. */
    var notifications: nat

    ghost predicate Valid()
      reads this
    {
      WellFormed(nodes)
    }

    constructor ()
      ensures Valid()
      ensures nodes == Empty && !running && notifications == 0
    {
      nodes := Empty;
      running := false;
      notifications := 0;
    }

    /** `get_sorted_nodes`: the registered nodes, each once, ordered by name. */
    function SortedNodes(): (r: seq<Node>)
      reads this
      requires Valid()
      ensures SortedByName(r)
      ensures forall n :: n in r <==> n.id in nodes.entries && nodes.entries[n.id] == n
      ensures |r| == |nodes.order|
    {
      SortedValues(nodes)
    }

    /**
     * `__append_node`: a new id is stored; a stored node that differs from
     * `node` is replaced. Either way the id ends up holding `node`.
     */
    method AppendNode(node: Node)
      requires Valid()
      modifies this
      ensures Valid()
      ensures nodes == Put(old(nodes), node)
      ensures running == old(running) && notifications == old(notifications)
    {
      ghost var before := nodes;
      if node.id !in nodes.entries {
        nodes := Put(nodes, node);
      }
      if !Same(nodes.entries[node.id], node) {
        nodes := Put(nodes, node);
      }
      if node.id in before.entries {
        if Same(before.entries[node.id], node) {
          PutStoredIsIdentity(before, node);
        }
      } else {
        PutTwice(before, node);
      }
    }

    /** `set_nodes`: append each node in turn. */
    method SetNodes(list: seq<Node>)
      requires Valid()
      modifies this
      ensures Valid()
      ensures nodes == PutAll(old(nodes), list)
      ensures running == old(running) && notifications == old(notifications)
    {
      var i := 0;
      while i < |list|
        invariant 0 <= i <= |list|
        invariant Valid()
        invariant nodes == PutAll(old(nodes), list[..i])
        invariant running == old(running) && notifications == old(notifications)
      {
        AppendNode(list[i]);
        assert list[..i + 1][..i] == list[..i];
        i := i + 1;
      }
      assert list[..i] == list;
    }

    /** `stop`: clear the running flag; nothing else changes. */
    method Stop()
      requires Valid()
      modifies this
      ensures Valid() && !running
      ensures nodes == old(nodes) && notifications == old(notifications)
    {
      running := false;
    }

    /**
     * One received datagram: only a sysinfo datagram is decoded, merged and
     * followed by a callback; anything else is ignored.
     */
    method ProcessDatagram(data: seq<bv8>)
      requires Valid() && Admissible(data)
      modifies this
      ensures Valid()
      ensures IsSysinfo(data) ==> nodes == Put(old(nodes), Decode(data))
                                  && notifications == old(notifications) + 1
      ensures !IsSysinfo(data) ==> nodes == old(nodes) && notifications == old(notifications)
      ensures running == old(running)
    {
      var msgToken := data[0];
      var msgId := data[1];
      if msgToken == 255 && msgId == 1 {
        var node := Decode(data);
        AppendNode(node);
        notifications := notifications + 1;
      }
    }

    /**
     * `start`: run the receive loop over `inputs` until a stop request is
     * seen or the inputs run out, then clear the running flag and call the
     * callback once more. Every sysinfo datagram before the first stop
     * request is merged, in arrival order, with one callback each.
     */
    method Start(inputs: seq<Input>)
      requires Valid() && AllAdmissible(Window(inputs))
      modifies this
      ensures Valid() && !running
      ensures nodes == PutAll(old(nodes), Accepted(Window(inputs)))
      ensures notifications == old(notifications) + |Accepted(Window(inputs))| + 1
    {
      ghost var w := Window(inputs);
      ghost var n0, c0 := nodes, notifications;
      running := true;
      var i := 0;
      ghost var handled := 0;   // passes whose input has been acted on, up to the stop
      assert w[..handled] == [];
      while running && i < |inputs|
        invariant 0 <= i <= |inputs|
        invariant Valid()
        invariant running ==> handled == i <= |w|
        invariant !running ==> handled == |w| && i == |w| + 1
        invariant AllAdmissible(w[..handled])
        invariant nodes == PutAll(n0, Accepted(w[..handled]))
        invariant notifications == c0 + |Accepted(w[..handled])|
        decreases |inputs| - i
      {
        if i < |w| {
          assert w[i] == inputs[i];
          AcceptedExtend(w, i);
        }
        match inputs[i] {
          case Datagram(data) =>
            assert i < |w| && w[i] == Datagram(data) && Admissible(data);
            ghost var accepted := Accepted(w[..i]);
            ProcessDatagram(data);
            if IsSysinfo(data) {
              assert Accepted(w[..i + 1]) == accepted + [Decode(data)];
              PutAllSnoc(n0, accepted, Decode(data));
            } else {
              assert Accepted(w[..i + 1]) == accepted;
            }
            handled := i + 1;
          case Quiet =>
            assert i < |w| && w[i] == Quiet;
            assert Accepted(w[..i + 1]) == Accepted(w[..i]);
            handled := i + 1;
          case StopRequest =>
            assert i == |w|;
            Stop();
        }
        assert notifications == c0 + |Accepted(w[..handled])|;
        i := i + 1;
      }
      assert w[..|w|] == w;
      running := false;
      notifications := notifications + 1;
    }
  }
}
