/**
 The membership object (internal/cluster/membership.go) and the gossip handlers of a cluster member
 (pkg/backend/dist_memory.go). The member's own node is one of the membership's node objects, so a
 refutation through the membership is seen through the member's own reference.
 */
module Membership {
  import P = GossipPolicy

  type Id = P.Id

  class Node {
    const id: Id
    var state: P.NodeState
    var incarnation: nat

    constructor (id: Id, state: P.NodeState, incarnation: nat)
      ensures this.id == id && this.state == state && this.incarnation == incarnation
    {
      this.id, this.state, this.incarnation := id, state, incarnation;
    }
  }

  /** The records behind the node objects. */
  ghost function Recs(nodes: map<Id, Node>): map<Id, P.Rec>
    reads nodes.Values
  {
    map id | id in nodes :: P.Rec(nodes[id].state, nodes[id].incarnation)
  }

  class Members {
    var nodes: map<Id, Node>
    var ring: set<Id>
    var ver: nat

    ghost predicate Valid()
      reads this
    {
      forall id :: id in nodes ==> nodes[id].id == id
    }

    ghost function View(local: Id): P.View
      reads this, nodes.Values
    {
      P.View(local, Recs(nodes), ring, ver)
    }

    constructor ()
      ensures Valid() && nodes == map[] && ring == {} && ver == 0
    {
      nodes, ring, ver := map[], {}, 0;
    }

    /** The members not known dead, collected in any order. */
    method Eligible() returns (ids: set<Id>)
      ensures ids == P.NonDead(Recs(nodes))
    {
      ids := {};
      var rest := nodes.Keys;
      while rest != {}
        invariant rest <= nodes.Keys
        invariant ids == set id | id in nodes && id !in rest && nodes[id].state != P.Dead
        decreases rest
      {
        var id :| id in rest;
        if nodes[id].state != P.Dead {
          ids := ids + {id};
        }
        rest := rest - {id};
      }
    }

    method Upsert(n: Node, ghost local: Id)
      requires Valid()
      modifies this
      ensures Valid() && nodes == old(nodes)[n.id := n]
      ensures View(local) == P.Upsert(old(View(local)), n.id, P.Rec(n.state, n.incarnation))
    {
      hide P.NonDead;
      ghost var recs := Recs(nodes);
      nodes := nodes[n.id := n];
      assert Recs(nodes) == recs[n.id := P.Rec(n.state, n.incarnation)];
      ver := ver + 1;
      ring := Eligible();
    }

    method Remove(id: Id, ghost local: Id) returns (ok: bool)
      requires Valid()
      modifies this
      ensures Valid() && ok == (id in old(nodes)) && nodes == old(nodes) - {id}
      ensures View(local) == P.Remove(old(View(local)), id)
    {
      if id !in nodes {
        assert nodes - {id} == nodes;
        return false;
      }
      nodes := nodes - {id};
      ver := ver + 1;
      ring := Eligible();
      ok := true;
    }

    method Mark(id: Id, state: P.NodeState, ghost local: Id) returns (ok: bool)
      requires Valid()
      modifies this`ver, nodes.Values
      ensures Valid() && ok == (id in nodes)
      ensures View(local) == P.Mark(old(View(local)), id, state)
    {
      if id !in nodes {
        return false;
      }
      var n := nodes[id];
      if n.state != state {
        n.incarnation := n.incarnation + 1;
        n.state := state;
        ver := ver + 1;
      }
      ok := true;
    }

    method Refute(id: Id, ghost local: Id) returns (ok: bool)
      requires Valid()
      modifies this`ver, nodes.Values
      ensures Valid() && ok == (id in nodes)
      ensures View(local) == P.Refute(old(View(local)), id)
    {
      if id !in nodes {
        return false;
      }
      var n := nodes[id];
      n.incarnation := n.incarnation + 1;
      n.state := P.Alive;
      ver := ver + 1;
      ok := true;
    }
  }

  /** A cluster member: its own node and its view of the others. */
  class Member {
    const localNode: Node
    const membership: Members

    ghost predicate Valid()
      reads this, membership
    {
      membership.Valid() && localNode.id in membership.nodes && membership.nodes[localNode.id] == localNode
    }

    ghost function View(): P.View
      reads this, membership, membership.nodes.Values
    {
      membership.View(localNode.id)
    }

    constructor (id: Id)
      ensures Valid() && View() == P.View(id, map[id := P.Rec(P.Alive, 1)], {id}, 1)
      ensures fresh(membership) && fresh(localNode) && membership.nodes.Values == {localNode}
    {
      localNode := new Node(id, P.Alive, 1);
      membership := new Members();
      new;
      membership.Upsert(localNode, id);
      assert Recs(membership.nodes) == map[id := P.Rec(P.Alive, 1)];
      assert P.NonDead(map[id := P.Rec(P.Alive, 1)]) == {id};
    }

    /** Compares the claim with the member's own reference, then refutes through the membership. */
    method RefuteIfSuspected(claim: P.Claim)
      requires Valid() && claim.id == localNode.id
      modifies membership`ver, membership.nodes.Values
      ensures Valid() && View() == P.MergeOne(old(View()), claim)
    {
      if claim.rec.state == P.Alive {
        return;
      }
      if claim.rec.inc < localNode.incarnation {
        return;
      }
      var _ := membership.Refute(localNode.id, localNode.id);
    }

    method AcceptOne(claim: P.Claim)
      requires Valid()
      modifies membership, membership.nodes.Values
      ensures Valid() && View() == P.MergeOne(old(View()), claim)
      ensures fresh(membership.nodes.Values - old(membership.nodes.Values))
    {
      if claim.id == localNode.id {
        RefuteIfSuspected(claim);
        return;
      }
      if claim.id !in membership.nodes || claim.rec.inc > membership.nodes[claim.id].incarnation {
        var n := new Node(claim.id, claim.rec.state, claim.rec.inc);
        membership.Upsert(n, localNode.id);
      }
    }

    method AcceptGossip(claims: seq<P.Claim>)
      requires Valid()
      modifies membership, membership.nodes.Values
      ensures Valid() && View() == P.Merge(old(View()), claims)
      ensures fresh(membership.nodes.Values - old(membership.nodes.Values))
    {
      for i := 0 to |claims|
        invariant Valid() && View() == P.Merge(old(View()), claims[..i])
        invariant fresh(membership.nodes.Values - old(membership.nodes.Values))
      {
        assert claims[..i + 1][..i] == claims[..i];
        AcceptOne(claims[i]);
      }
      assert claims[..|claims|] == claims;
    }
  }
}
