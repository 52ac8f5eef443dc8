/**
 * The cable-bus host: a block position holding up to six face parts and one centre
 * cable, the facades on its faces, its redstone tri-state, its shape caches and its
 * in-world flag. The grid it joins is reduced to the set of links its parts' nodes make.
 */
module CableBus {
  import opened BusModel
  import opened BusLemmas

  /** Why `readFromStream` throws. */
  datatype StreamError =
    | Truncated      // the buffer ran out, or held a token of the wrong kind
    | InvalidStream  // re-adding a part for a slot failed
    | MissingPart    // the re-added part went to another slot, so the slot was still empty

  /** Why `readFromNBT` throws. */
  datatype NbtError =
    | BadRedstoneOrdinal // `YesNo.values()[n]` out of bounds
    | MissingPart        // the re-added part went to another slot, so the slot was still empty

  class CableBusContainer {
    var storage: Storage
    /** The faces that carry a facade. */
    var facades: set<Direction>
    var hasRedstone: YesNo
    /** The sides the host block reports as blocked (`isBlocked`). */
    const blocked: set<Direction>
    var requiresDynamicRender: bool
    var inWorld: bool
    var cachedShape: Option<Shape>
    var cachedCollisionShape: Option<Shape>
    var cachedCollisionShapeLiving: Option<Shape>
    /** The grid connections the host's parts take part in. */
    var links: set<Link>
    /** How often the host asked its block to clean up (`tcb.cleanup()`). */
    ghost var cleanupRequests: nat

    /** Faces hold no cable, the centre holds only a cable, every face part fits the cable, parts are live exactly in world. */
    ghost predicate Valid()
      reads this
    {
      WellFormed(storage, inWorld) && Compatible(storage)
    }

    /** An empty host, not yet in the world, with its redstone state undecided. */
    constructor (blockedSides: set<Direction>)
      ensures storage == map[] && facades == {} && links == {}
      ensures hasRedstone == Undecided && !requiresDynamicRender && !inWorld
      ensures cachedShape.None? && cachedCollisionShape.None? && cachedCollisionShapeLiving.None?
      ensures blocked == blockedSides && cleanupRequests == 0
      ensures Valid()
    {
      storage := map[];
      facades := {};
      hasRedstone := Undecided;
      blocked := blockedSides;
      requiresDynamicRender := false;
      inWorld := false;
      cachedShape := None;
      cachedCollisionShape := None;
      cachedCollisionShapeLiving := None;
      links := {};
      cleanupRequests := 0;
    }

    // ------------------------------------------------------------ queries

    /** `arePartsCompatibleWithCable`: every face part can be placed on `cable`. */
    method ArePartsCompatibleWithCable(cable: Part) returns (r: bool)
      ensures r <==> forall s | s in storage && s.Face? :: cable.supportsBuses in storage[s].placeableOn
    {
      var i := 0;
      while i < 6
        invariant 0 <= i <= 6
        invariant forall d | DirIndex(d) < i && Face(d) in storage :: IsPartCompatibleWithCable(storage[Face(d)], Some(cable))
      {
        var s := Face(Directions[i]);
        if s in storage && !IsPartCompatibleWithCable(storage[s], Some(cable)) {
          return false;
        }
        i := i + 1;
      }
      return true;
    }

    /**
     * `canAddPart`: a facade the side accepts (`facadePlaceable`, decided by the facade
     * code), or a created part that `addPart` would not refuse on a free target.
     */
    method CanAddPart(stack: Stack, side: Slot, facadePlaceable: bool) returns (r: bool)
      ensures r <==> facadePlaceable || CanAttach(storage, stack, side)
    {
      if facadePlaceable {
        return true;
      }
      if !stack.PartItem? || stack.created.None? {
        return false;
      }
      var part := stack.created.value;
      if part.isCable {
        var ok := ArePartsCompatibleWithCable(part);
        return Center !in storage && ok;
      } else if side.Face? {
        return side !in storage && IsPartCompatibleWithCable(part, Lookup(storage, Center));
      }
      return false;
    }

    /** `isEmpty`: no part in any of the seven slots and no facade on any of the six faces. */
    method IsEmpty() returns (r: bool)
      ensures r <==> storage == map[] && facades == {}
    {
      var x := 0;
      while x < 7
        invariant 0 <= x <= 7
        invariant forall s | SlotIndex(s) < x :: s !in storage
        invariant forall d | DirIndex(d) < x :: d !in facades
      {
        var s := SlotAt(x);
        if s in storage {
          return false;
        }
        if s.Face? && s.dir in facades {
          return false;
        }
        x := x + 1;
      }
      assert forall s | s in storage :: SlotIndex(s) < 7;
      assert forall d | d in facades :: DirIndex(d) < 7;
      return true;
    }

    /** `getLightValue`: the brightest part's light level, and 0 for an empty host. */
    method GetLightValue() returns (light: int)
      ensures light >= 0
      ensures forall s | s in storage :: storage[s].lightLevel <= light
      ensures light == 0 || exists s | s in storage :: storage[s].lightLevel == light
    {
      light := 0;
      var x := 0;
      while x < 7
        invariant 0 <= x <= 7
        invariant light >= 0
        invariant forall s | s in storage && SlotIndex(s) < x :: storage[s].lightLevel <= light
        invariant light == 0 || exists s | s in storage :: storage[s].lightLevel == light
      {
        var s := SlotAt(x);
        if s in storage && storage[s].lightLevel > light {
          light := storage[s].lightLevel;
        }
        x := x + 1;
      }
    }

    /** `getGridNode`: the slot's outward node if its part has one, else the cable's node. */
    function GetGridNode(side: Slot): (r: Option<NodeId>)
      reads this
      ensures r.Some? ==> exists s | s in storage :: r.value in NodesOf(storage[s])
      ensures side in storage && storage[side].externalNode.Some? ==> r == storage[side].externalNode
      ensures !(side in storage && storage[side].externalNode.Some?) ==> r == CableNode(storage)
    {
      if side in storage && storage[side].externalNode.Some? then storage[side].externalNode
      else if Center in storage then storage[Center].node
      else None
    }

    /** `getCableConnectionType`: the slot part's outward connection type if it has an outward node, else the cable's, else NONE. */
    function GetCableConnectionType(side: Slot): (r: Option<CableType>)
      reads this
      ensures r.Some? ==> exists s | s in storage ::
                r == storage[s].connectionType || r == storage[s].externalConnectionType
      ensures side in storage && storage[side].externalNode.Some? ==> r == storage[side].externalConnectionType
      ensures !(side in storage && storage[side].externalNode.Some?) && Center in storage ==>
                r == storage[Center].connectionType
      ensures !(side in storage && storage[side].externalNode.Some?) && Center !in storage ==> r.None?
    {
      if side in storage && storage[side].externalNode.Some? then storage[side].externalConnectionType
      else if Center in storage then storage[Center].connectionType
      else None
    }

    // ------------------------------------------------------------ caches and redstone

    /** `invalidateShapes`: all three caches are cleared together. */
    method InvalidateShapes()
      modifies this`cachedShape, this`cachedCollisionShape, this`cachedCollisionShapeLiving
      ensures cachedShape.None? && cachedCollisionShape.None? && cachedCollisionShapeLiving.None?
    {
      cachedShape := None;
      cachedCollisionShape := None;
      cachedCollisionShapeLiving := None;
    }

    /** `getShape`: the cached shape, computed only when the cache is empty. */
    method GetShape(opaqueFacades: bool) returns (sh: Shape)
      modifies this`cachedShape
      ensures old(cachedShape).Some? ==> cachedShape == old(cachedShape) && sh == cachedShape.value
      ensures old(cachedShape).None? ==>
                sh == CreateShape(storage, facades, false, false, opaqueFacades) && cachedShape == Some(sh)
    {
      if cachedShape.None? {
        cachedShape := Some(CreateShape(storage, facades, false, false, opaqueFacades));
      }
      sh := cachedShape.value;
    }

    /** `getCollisionShape`: one cache for item entities, one for everything else, each computed only when empty. */
    method GetCollisionShape(itemEntity: bool, opaqueFacades: bool) returns (sh: Shape)
      modifies this`cachedCollisionShape, this`cachedCollisionShapeLiving
      ensures itemEntity ==> cachedCollisionShape == old(cachedCollisionShape)
      ensures !itemEntity ==> cachedCollisionShapeLiving == old(cachedCollisionShapeLiving)
      ensures itemEntity && old(cachedCollisionShapeLiving).Some? ==>
                cachedCollisionShapeLiving == old(cachedCollisionShapeLiving) && sh == cachedCollisionShapeLiving.value
      ensures itemEntity && old(cachedCollisionShapeLiving).None? ==>
                sh == CreateShape(storage, facades, true, true, opaqueFacades) && cachedCollisionShapeLiving == Some(sh)
      ensures !itemEntity && old(cachedCollisionShape).Some? ==>
                cachedCollisionShape == old(cachedCollisionShape) && sh == cachedCollisionShape.value
      ensures !itemEntity && old(cachedCollisionShape).None? ==>
                sh == CreateShape(storage, facades, true, false, opaqueFacades) && cachedCollisionShape == Some(sh)
    {
      if itemEntity {
        if cachedCollisionShapeLiving.None? {
          cachedCollisionShapeLiving := Some(CreateShape(storage, facades, true, true, opaqueFacades));
        }
        sh := cachedCollisionShapeLiving.value;
      } else {
        if cachedCollisionShape.None? {
          cachedCollisionShape := Some(CreateShape(storage, facades, true, false, opaqueFacades));
        }
        sh := cachedCollisionShape.value;
      }
    }

    /**
     * `hasRedstone`: decides the tri-state from the neighbour signal (`getBestNeighborSignal`)
     * only while it is undecided, then reports whether it is YES.
     */
    method HasRedstone(neighborSignal: int) returns (r: bool)
      modifies this`hasRedstone
      ensures old(hasRedstone) != Undecided ==> hasRedstone == old(hasRedstone)
      ensures old(hasRedstone) == Undecided ==> hasRedstone == (if neighborSignal != 0 then Yes else No)
      ensures hasRedstone != Undecided
      ensures r <==> hasRedstone == Yes
    {
      if hasRedstone == Undecided {
        hasRedstone := if neighborSignal != 0 then Yes else No;
      }
      r := hasRedstone == Yes;
    }

    /** `onNeighborChanged`: the redstone state becomes undecided and every cached shape is dropped. */
    method OnNeighborChanged()
      modifies this`hasRedstone, this`cachedShape, this`cachedCollisionShape, this`cachedCollisionShapeLiving
      ensures hasRedstone == Undecided
      ensures cachedShape.None? && cachedCollisionShape.None? && cachedCollisionShapeLiving.None?
    {
      hasRedstone := Undecided;
      InvalidateShapes();
    }

    // ------------------------------------------------------------ refreshing derived state

    /** `updateDynamicRender`: whether some face part renders dynamically. */
    method UpdateDynamicRender()
      modifies this`requiresDynamicRender
      ensures requiresDynamicRender <==> exists s | s in storage && s.Face? :: storage[s].dynamicRender
    {
      requiresDynamicRender := false;
      var i := 0;
      while i < 6
        invariant 0 <= i <= 6
        invariant requiresDynamicRender <==>
                    exists d | DirIndex(d) < i :: Face(d) in storage && storage[Face(d)].dynamicRender
      {
        var s := Face(Directions[i]);
        if s in storage {
          requiresDynamicRender := requiresDynamicRender || storage[s].dynamicRender;
        }
        i := i + 1;
      }
      assert forall s: Slot | s.Face? :: s == Face(s.dir) && DirIndex(s.dir) < 6;
    }

    /**
     * `updateConnections`: with a cable present, expose it on every side that holds no
     * face part and is not blocked; without a cable, change nothing.
     */
    method UpdateConnections()
      modifies this`storage
      ensures storage == CableExposed(old(storage), blocked)
      ensures storage.Keys == old(storage).Keys
      ensures Center in storage ==> storage[Center].exposedOn == ExposedSides(old(storage), blocked)
    {
      if Center in storage {
        AllDirectionsComplete();
        var sides := AllDirections;
        var i := 0;
        while i < 6
          invariant 0 <= i <= 6
          invariant forall d :: d in sides <==> (DirIndex(d) < i ==> Face(d) !in storage && d !in blocked)
        {
          var d := Directions[i];
          if Face(d) in storage || d in blocked {
            sides := sides - {d};
          }
          i := i + 1;
        }
        assert sides == ExposedSides(storage, blocked);
        storage := storage[Center := storage[Center].(exposedOn := sides)];
      }
    }

    /**
     * The facade half of `partChanged`: every facade is removed (and dropped into the
     * world). The facade container is wired to `invalidateShapes`, so removing a facade
     * drops the caches; with no facade the caches are kept.
     */
    method DropFacades()
      modifies this`facades, this`cachedShape, this`cachedCollisionShape, this`cachedCollisionShapeLiving
      ensures facades == {}
      ensures old(facades) != {} ==> cachedShape.None? && cachedCollisionShape.None? && cachedCollisionShapeLiving.None?
      ensures old(facades) == {} ==>
                cachedShape == old(cachedShape) && cachedCollisionShape == old(cachedCollisionShape)
                && cachedCollisionShapeLiving == old(cachedCollisionShapeLiving)
    {
      var i := 0;
      while i < 6
        invariant 0 <= i <= 6
        invariant forall d :: d in facades <==> d in old(facades) && DirIndex(d) >= i
        invariant facades != old(facades) ==> cachedShape.None? && cachedCollisionShape.None? && cachedCollisionShapeLiving.None?
        invariant facades == old(facades) ==>
                    cachedShape == old(cachedShape) && cachedCollisionShape == old(cachedCollisionShape)
                    && cachedCollisionShapeLiving == old(cachedCollisionShapeLiving)
      {
        var d := Directions[i];
        if d in facades {
          facades := facades - {d};
          InvalidateShapes();
        }
        i := i + 1;
      }
      assert forall d :: DirIndex(d) < 6;
    }

    /** The node half of `partChanged`: every face part's outward node is exposed on its own side only. */
    method ExposeFaceNodes()
      modifies this`storage
      ensures storage == FacesExposed(old(storage))
    {
      ExposedBelowEnds(storage);
      var i := 0;
      while i < 6
        invariant 0 <= i <= 6
        invariant storage == ExposedBelow(old(storage), i)
      {
        var s := Face(Directions[i]);
        ExposedBelowStep(old(storage), i);
        if s in storage && storage[s].externalNode.Some? {
          storage := storage[s := storage[s].(exposedOn := {Directions[i]})];
        }
        i := i + 1;
      }
    }

    /**
     * `partChanged`: without a cable the facades are dropped; then every face part with
     * an outward node has that node exposed on its own side only.
     */
    method PartChanged()
      modifies this`storage, this`facades
      modifies this`cachedShape, this`cachedCollisionShape, this`cachedCollisionShapeLiving
      ensures facades == if Center in old(storage) then old(facades) else {}
      ensures Center !in old(storage) && old(facades) != {} ==>
                cachedShape.None? && cachedCollisionShape.None? && cachedCollisionShapeLiving.None?
      ensures Center in old(storage) || old(facades) == {} ==>
                cachedShape == old(cachedShape) && cachedCollisionShape == old(cachedCollisionShape)
                && cachedCollisionShapeLiving == old(cachedCollisionShapeLiving)
      ensures storage == FacesExposed(old(storage))
    {
      if Center !in storage {
        DropFacades();
      }
      ExposeFaceNodes();
    }

    /** `updateAfterPartChange`: drop the caches, then refresh dynamic rendering, the cable's exposure and the face nodes. */
    method UpdateAfterPartChange()
      modifies this`storage, this`facades, this`requiresDynamicRender
      modifies this`cachedShape, this`cachedCollisionShape, this`cachedCollisionShapeLiving
      ensures storage == Refreshed(old(storage), blocked)
      ensures facades == if Center in old(storage) then old(facades) else {}
      ensures requiresDynamicRender == AnyDynamicRender(old(storage))
      ensures cachedShape.None? && cachedCollisionShape.None? && cachedCollisionShapeLiving.None?
    {
      InvalidateShapes();
      UpdateDynamicRender();
      UpdateConnections();
      PartChanged();
    }

    // ------------------------------------------------------------ placing and removing parts

    /**
     * The cable branch of `addPart` after its checks: place the cable (live when the host is),
     * then connect its node to each face part's node in direction order; on the first
     * failure the cable leaves the world, taking its links with it, and the centre is cleared.
     */
    method AttachCable(part: Part, connect: (NodeId, NodeId) -> bool) returns (ok: bool)
      requires part.isCable && Center !in storage
      modifies this`storage, this`links
      ensures ok <==> !(part.node.Some? && CableLinkFails(old(storage), part.node.value, connect, 6))
      ensures ok ==> storage == old(storage)[Center := part.(live := inWorld)]
      ensures ok ==> links == old(links) + NewLinks(old(storage), part)
      ensures !ok ==> storage == old(storage) && links == Detach(old(links), part)
    {
      storage := storage[Center := part.(live := inWorld)];
      if part.node.Some? {
        var cn := part.node.value;
        var x := 0;
        while x < 6
          invariant 0 <= x <= 6
          invariant storage == old(storage)[Center := part.(live := inWorld)]
          invariant links == old(links) + CableLinks(old(storage), cn, x)
          invariant !CableLinkFails(old(storage), cn, connect, x)
        {
          var s := Face(Directions[x]);
          assert FaceNode(old(storage), x) == if s in storage && storage[s].node.Some? then storage[s].node else None;
          if s in storage && storage[s].node.Some? {
            var n := storage[s].node.value;
            if !connect(cn, n) {
              CableLinkFailsMono(old(storage), cn, connect, x + 1, 6);
              DetachUndoesCableLinks(old(storage), old(links), part, x);
              links := Detach(links, part);
              storage := storage - {Center};
              assert storage == old(storage);
              return false;
            }
            links := links + {Link(cn, n)};
          }
          x := x + 1;
        }
      }
      return true;
    }

    /**
     * The face branch of `addPart` after its check: place the part on `side` (live when the
     * host is) and connect it to the cable when both have nodes; on failure the part leaves
     * the world and the side is cleared.
     */
    method AttachFace(part: Part, side: Slot, connect: (NodeId, NodeId) -> bool) returns (ok: bool)
      requires side.Face? && !part.isCable
      modifies this`storage, this`links
      ensures ok <==> !(CableNode(old(storage)).Some? && part.node.Some? && !connect(CableNode(old(storage)).value, part.node.value))
      ensures ok ==> storage == old(storage)[side := part.(live := inWorld)]
      ensures ok ==> links == old(links) + NewLinks(old(storage), part)
      ensures !ok ==> storage == old(storage) - {side} && links == Detach(old(links), part)
    {
      var cable := Lookup(storage, Center);
      storage := storage[side := part.(live := inWorld)];
      if cable.Some? && cable.value.node.Some? && part.node.Some? {
        if !connect(cable.value.node.value, part.node.value) {
          links := Detach(links, part);
          storage := storage - {side};
          assert storage == old(storage) - {side};
          return false;
        }
        links := links + {Link(cable.value.node.value, part.node.value)};
      }
      return true;
    }

    /**
     * `addPart`: place the part the stack creates. A cable goes to the centre if that is
     * free and every face part fits it; another part goes to the face `side` (without a
     * check that the side is free) if it fits the cable, and is not placed at all when
     * `side` is the centre. A failed connection rolls back the slot just filled; a success,
     * and a part left unplaced, refresh the host's derived state and report true.
     */
    method AddPart(stack: Stack, side: Slot, connect: (NodeId, NodeId) -> bool) returns (added: bool)
      requires Valid()
      modifies this`storage, this`links, this`facades, this`requiresDynamicRender
      modifies this`cachedShape, this`cachedCollisionShape, this`cachedCollisionShapeLiving
      ensures Valid()
      ensures added <==> AddSucceeds(Attempt(old(storage), stack, side, connect))
      ensures storage == AfterAdd(old(storage), stack, side, connect, inWorld, blocked)
      ensures links == LinksAfterAdd(old(storage), old(links), stack, side, connect)
      ensures !added ==> facades == old(facades) && requiresDynamicRender == old(requiresDynamicRender)
      ensures !added ==> cachedShape == old(cachedShape) && cachedCollisionShape == old(cachedCollisionShape)
                         && cachedCollisionShapeLiving == old(cachedCollisionShapeLiving)
      ensures added ==> facades == (if Center in storage then old(facades) else {})
      ensures added ==> requiresDynamicRender == AnyDynamicRender(storage)
      ensures added ==> cachedShape.None? && cachedCollisionShape.None? && cachedCollisionShapeLiving.None?
    {
      if !stack.PartItem? || stack.created.None? {
        return false;
      }
      if stack.created.value.isCable {
        added := AddCable(stack, side, connect);
      } else if side.Face? {
        added := AddFace(stack, side, connect);
      } else {
        RefreshValid();
        return true;
      }
    }

    /** `updateAfterPartChange` on a well-formed storage: it keeps the host valid and the parts' contents. */
    method RefreshValid()
      requires WellFormed(storage, inWorld) && Compatible(storage)
      modifies this`storage, this`facades, this`requiresDynamicRender
      modifies this`cachedShape, this`cachedCollisionShape, this`cachedCollisionShapeLiving
      ensures Valid()
      ensures storage == Refreshed(old(storage), blocked)
      ensures Contents(storage) == Contents(old(storage))
      ensures facades == if Center in storage then old(facades) else {}
      ensures requiresDynamicRender == AnyDynamicRender(storage)
      ensures cachedShape.None? && cachedCollisionShape.None? && cachedCollisionShapeLiving.None?
    {
      ghost var placed := storage;
      UpdateAfterPartChange();
      RefreshedKeepsParts(placed, blocked);
    }

    /** `addPart` for a part item whose part is a cable. */
    method AddCable(stack: Stack, side: Slot, connect: (NodeId, NodeId) -> bool) returns (added: bool)
      requires Valid() && stack.PartItem? && stack.created.Some? && stack.created.value.isCable
      modifies this`storage, this`links, this`facades, this`requiresDynamicRender
      modifies this`cachedShape, this`cachedCollisionShape, this`cachedCollisionShapeLiving
      ensures Valid()
      ensures added <==> Attempt(old(storage), stack, side, connect) == Attached
      ensures storage == AfterAdd(old(storage), stack, side, connect, inWorld, blocked)
      ensures links == LinksAfterAdd(old(storage), old(links), stack, side, connect)
      ensures !added ==> facades == old(facades) && requiresDynamicRender == old(requiresDynamicRender)
      ensures !added ==> cachedShape == old(cachedShape) && cachedCollisionShape == old(cachedCollisionShape)
                         && cachedCollisionShapeLiving == old(cachedCollisionShapeLiving)
      ensures added ==> facades == (if Center in storage then old(facades) else {})
      ensures added ==> requiresDynamicRender == AnyDynamicRender(storage)
      ensures added ==> cachedShape.None? && cachedCollisionShape.None? && cachedCollisionShapeLiving.None?
    {
      var part := stack.created.value;
      var fits := ArePartsCompatibleWithCable(part);
      if Center in storage || !fits {
        assert Attempt(storage, stack, side, connect) == Refused;
        return false;
      }
      CableOutcome(storage, links, stack, side, connect, inWorld, blocked);
      added := AttachCable(part, connect);
      if added {
        PlacedKeepsInvariant(old(storage), part, Center, inWorld);
        RefreshValid();
      }
    }

    /** `addPart` for a part item whose part is not a cable, on a face. */
    method AddFace(stack: Stack, side: Slot, connect: (NodeId, NodeId) -> bool) returns (added: bool)
      requires Valid() && stack.PartItem? && stack.created.Some? && !stack.created.value.isCable && side.Face?
      modifies this`storage, this`links, this`facades, this`requiresDynamicRender
      modifies this`cachedShape, this`cachedCollisionShape, this`cachedCollisionShapeLiving
      ensures Valid()
      ensures added <==> Attempt(old(storage), stack, side, connect) == Attached
      ensures storage == AfterAdd(old(storage), stack, side, connect, inWorld, blocked)
      ensures links == LinksAfterAdd(old(storage), old(links), stack, side, connect)
      ensures !added ==> facades == old(facades) && requiresDynamicRender == old(requiresDynamicRender)
      ensures !added ==> cachedShape == old(cachedShape) && cachedCollisionShape == old(cachedCollisionShape)
                         && cachedCollisionShapeLiving == old(cachedCollisionShapeLiving)
      ensures added ==> facades == (if Center in storage then old(facades) else {})
      ensures added ==> requiresDynamicRender == AnyDynamicRender(storage)
      ensures added ==> cachedShape.None? && cachedCollisionShape.None? && cachedCollisionShapeLiving.None?
    {
      var part := stack.created.value;
      if !IsPartCompatibleWithCable(part, Lookup(storage, Center)) {
        assert Attempt(storage, stack, side, connect) == Refused;
        return false;
      }
      FaceOutcome(storage, links, stack, side, connect, inWorld, blocked);
      added := AttachFace(part, side, connect);
      if added {
        PlacedKeepsInvariant(old(storage), part, side, inWorld);
        RefreshValid();
      } else {
        DropKeepsInvariant(old(storage), side, inWorld);
      }
    }

    /** `removePartWithoutUpdates`: the slot's part, if any, leaves the world and the slot is cleared. */
    method RemovePartWithoutUpdates(side: Slot)
      requires Valid()
      modifies this`storage, this`links
      ensures Valid()
      ensures storage == old(storage) - {side}
      ensures links == if side in old(storage) then Detach(old(links), old(storage)[side]) else old(links)
    {
      if side in storage {
        links := Detach(links, storage[side]);
      }
      storage := storage - {side};
      assert Lookup(storage, Center).Some? ==> Lookup(storage, Center) == Lookup(old(storage), Center);
    }

    /**
     * `removePart`: clear the slot, refresh the derived state, and ask the block to clean
     * up when the host is in the world and nothing is left in it.
     */
    method RemovePart(side: Slot)
      requires Valid()
      modifies this`storage, this`links, this`facades, this`requiresDynamicRender, this`cleanupRequests
      modifies this`cachedShape, this`cachedCollisionShape, this`cachedCollisionShapeLiving
      ensures Valid()
      ensures storage == Refreshed(old(storage) - {side}, blocked)
      ensures Contents(storage) == Contents(old(storage) - {side})
      ensures links == if side in old(storage) then Detach(old(links), old(storage)[side]) else old(links)
      ensures facades == if Center in storage then old(facades) else {}
      ensures requiresDynamicRender == AnyDynamicRender(storage)
      ensures cachedShape.None? && cachedCollisionShape.None? && cachedCollisionShapeLiving.None?
      ensures cleanupRequests == old(cleanupRequests) + (if inWorld && storage == map[] && facades == {} then 1 else 0)
    {
      RemovePartWithoutUpdates(side);
      RefreshValid();
      var empty := IsEmpty();
      if inWorld && empty {
        cleanupRequests := cleanupRequests + 1;
      }
    }

    /**
     * `replacePart`: remove whatever is in the slot, then add; the old part is not
     * restored when the add fails.
     */
    method ReplacePart(stack: Stack, side: Slot, connect: (NodeId, NodeId) -> bool) returns (added: bool)
      requires Valid()
      modifies this`storage, this`links, this`facades, this`requiresDynamicRender
      modifies this`cachedShape, this`cachedCollisionShape, this`cachedCollisionShapeLiving
      ensures Valid()
      ensures added <==> AddSucceeds(Attempt(old(storage) - {side}, stack, side, connect))
      ensures storage == AfterAdd(old(storage) - {side}, stack, side, connect, inWorld, blocked)
      ensures links == LinksAfterAdd(old(storage) - {side},
                                     if side in old(storage) then Detach(old(links), old(storage)[side]) else old(links),
                                     stack, side, connect)
      ensures !added ==> side !in storage
      ensures !added ==> forall s | s != side :: Lookup(storage, s) == Lookup(old(storage), s)
      ensures !added ==> facades == old(facades) && requiresDynamicRender == old(requiresDynamicRender)
      ensures !added ==> cachedShape == old(cachedShape) && cachedCollisionShape == old(cachedCollisionShape)
                         && cachedCollisionShapeLiving == old(cachedCollisionShapeLiving)
      ensures added ==> facades == (if Center in storage then old(facades) else {})
      ensures added ==> requiresDynamicRender == AnyDynamicRender(storage)
      ensures added ==> cachedShape.None? && cachedCollisionShape.None? && cachedCollisionShapeLiving.None?
    {
      RemovePartWithoutUpdates(side);
      ghost var cleared := storage;
      added := AddPart(stack, side, connect);
      if !added {
        FailedAttachTouchesOnlyTarget(cleared, stack, side, connect, inWorld, blocked);
      }
    }

    // ------------------------------------------------------------ entering and leaving the world

    /**
     * The loop of `addToWorld`: from the centre down to index 0 every part goes live, and
     * each face node is connected to the cable node; a failed connection is ignored.
     */
    method BringPartsLive(connect: (NodeId, NodeId) -> bool)
      modifies this`storage, this`links
      ensures storage == WithLive(old(storage), true)
      ensures links == old(links) + WorldLinks(old(storage), connect)
    {
      ghost var st := storage;
      ghost var links0 := links;
      LiveFromEnds(st);
      var x := 7;
      while x > 0
        invariant 0 <= x <= 7
        invariant storage == LiveFrom(st, x)
        invariant CableNode(st).None? ==> links == links0
        invariant CableNode(st).Some? ==> links == links0 + FaceLinksFrom(st, CableNode(st).value, connect, x)
      {
        x := x - 1;
        var s := SlotAt(x);
        LiveFromStep(st, x);
        FaceLinksStep(st, connect, x);
        if s in storage {
          var p := storage[s];
          storage := storage[s := p.(live := true)];
          if x < 6 && p.node.Some? && Center in storage && storage[Center].node.Some? {
            var cn := storage[Center].node.value;
            if connect(cn, p.node.value) {
              links := links + {Link(cn, p.node.value)};
            }
          }
        }
      }
    }

    /**
     * `addToWorld`: unless already in the world, bring every part live and connect the
     * face nodes to the cable, then run `partChanged`.
     */
    method AddToWorld(connect: (NodeId, NodeId) -> bool)
      requires Valid()
      modifies this`inWorld, this`storage, this`links, this`facades
      modifies this`cachedShape, this`cachedCollisionShape, this`cachedCollisionShapeLiving
      ensures Valid()
      ensures old(inWorld) ==> inWorld && storage == old(storage) && links == old(links) && facades == old(facades)
      ensures !old(inWorld) && Center !in old(storage) && old(facades) != {} ==>
                cachedShape.None? && cachedCollisionShape.None? && cachedCollisionShapeLiving.None?
      ensures old(inWorld) || Center in old(storage) || old(facades) == {} ==>
                cachedShape == old(cachedShape) && cachedCollisionShape == old(cachedCollisionShape)
                && cachedCollisionShapeLiving == old(cachedCollisionShapeLiving)
      ensures !old(inWorld) ==> inWorld && storage == FacesExposed(WithLive(old(storage), true))
      ensures !old(inWorld) ==> links == old(links) + WorldLinks(old(storage), connect)
      ensures !old(inWorld) ==> facades == if Center in old(storage) then old(facades) else {}
    {
      if inWorld {
        return;
      }
      inWorld := true;
      WithLiveKeeps(storage, true);
      BringPartsLive(connect);
      FacesExposedSame(storage);
      SameButExposureKeeps(FacesExposed(storage), storage);
      PartChanged();
    }

    /** The loop of `removeFromWorld`: every part leaves the world, and its nodes' links go with it. */
    method TakePartsOffline()
      modifies this`storage, this`links
      ensures storage == WithLive(old(storage), false)
      ensures links == DetachUpTo(old(links), old(storage), 7)
    {
      OfflineBelowEnds(storage);
      var x := 0;
      while x < 7
        invariant 0 <= x <= 7
        invariant storage == OfflineBelow(old(storage), x)
        invariant links == DetachUpTo(old(links), old(storage), x)
      {
        var s := SlotAt(x);
        OfflineBelowStep(old(storage), x);
        if s in storage {
          links := Detach(links, storage[s]);
          storage := storage[s := storage[s].(live := false)];
        }
        x := x + 1;
      }
    }

    /**
     * `removeFromWorld`: unless already out of the world, take every part out of it, drop
     * the caches and run `partChanged`.
     */
    method RemoveFromWorld()
      requires Valid()
      modifies this`inWorld, this`storage, this`links, this`facades
      modifies this`cachedShape, this`cachedCollisionShape, this`cachedCollisionShapeLiving
      ensures Valid()
      ensures !old(inWorld) ==> !inWorld && storage == old(storage) && links == old(links) && facades == old(facades)
      ensures old(inWorld) ==> !inWorld && storage == FacesExposed(WithLive(old(storage), false))
      ensures old(inWorld) ==> links == DetachUpTo(old(links), old(storage), 7)
      ensures old(inWorld) ==> facades == if Center in old(storage) then old(facades) else {}
      ensures old(inWorld) ==> cachedShape.None? && cachedCollisionShape.None? && cachedCollisionShapeLiving.None?
    {
      if !inWorld {
        return;
      }
      inWorld := false;
      WithLiveKeeps(storage, false);
      TakePartsOffline();
      FacesExposedSame(storage);
      SameButExposureKeeps(FacesExposed(storage), storage);
      InvalidateShapes();
      PartChanged();
    }

    // ------------------------------------------------------------ the network stream

    /** The occupancy loop of `writeToStream`: bit x is set exactly when the slot at index x holds a part. */
    method OccupancyMask() returns (sides: bv8)
      ensures sides == Mask(storage)
      ensures forall x | 0 <= x < 7 :: HasBit(sides, x) <==> SlotAt(x) in storage
    {
      sides := 0;
      var x := 0;
      while x < 7
        invariant 0 <= x <= 7
        invariant sides == MaskUpTo(storage, x)
      {
        if SlotAt(x) in storage {
          sides := sides | Bit(x);
        }
        x := x + 1;
      }
      forall y | 0 <= y < 7 ensures HasBit(sides, y) <==> SlotAt(y) in storage {
        MaskBits(storage, y);
      }
    }

    /**
     * `writeToStream`: the occupancy byte, then each part's item id and payload in slot
     * order (the facades' own sub-stream that follows is not part of this model).
     */
    method WriteToStream() returns (tokens: seq<Token>)
      ensures tokens == EncodeStream(storage)
      ensures tokens[0].ByteToken? && forall x | 0 <= x < 7 :: HasBit(tokens[0].b, x) <==> SlotAt(x) in storage
    {
      var sides := OccupancyMask();
      var st := storage;
      var entries: seq<Token> := [];
      var x := 0;
      while x < 7
        invariant 0 <= x <= 7
        invariant entries + EncodeEntries(st, x) == EncodeEntries(st, 0)
      {
        var s := SlotAt(x);
        var chunk := if s in st then [VarIntToken(st[s].item), PartData(st[s].data)] else [];
        EncodeEntriesStep(st, x, entries);
        entries := entries + chunk;
        x := x + 1;
      }
      tokens := [ByteToken(sides)] + entries;
    }

    /** A part's `readFromStream` / `readFromNBT`: the part takes the state it was given. */
    method LoadPayload(s: Slot, d: Payload)
      requires Valid() && s in storage
      modifies this`storage
      ensures Valid()
      ensures storage == old(storage)[s := old(storage)[s].(data := d)]
    {
      PayloadKeeps(storage, s, d, inWorld);
      storage := storage[s := storage[s].(data := d)];
    }

    /**
     * The mismatch branch of `readFromStream`: remove the slot's part, then add a part of
     * the stream's item in its stead; that part must land in the slot.
     */
    method ReplaceFromStream(s: Slot, itemId: ItemId, catalog: Catalog, connect: (NodeId, NodeId) -> bool)
      returns (err: Option<StreamError>)
      requires Valid()
      modifies this`storage, this`links, this`facades, this`requiresDynamicRender, this`cleanupRequests
      modifies this`cachedShape, this`cachedCollisionShape, this`cachedCollisionShapeLiving
      ensures Valid()
      ensures err.None? <==> Installs(old(storage) - {s}, catalog(itemId), s, connect)
      ensures err == Some(InvalidStream) <==> !AddSucceeds(Attempt(old(storage) - {s}, catalog(itemId), s, connect))
      ensures err.None? ==> s in storage
      ensures err.None? ==>
                catalog(itemId).PartItem? && catalog(itemId).created.Some?
                && storage[s] == catalog(itemId).created.value.(live := inWorld, exposedOn := storage[s].exposedOn)
      ensures err.None? && CatalogConsistent(catalog) ==> storage[s].item == itemId
      ensures err.None? ==> SameElsewhere(old(storage), storage, s)
    {
      RemovePart(s);
      ghost var cleared := storage;
      RefreshedKeepsParts(old(storage) - {s}, blocked);
      AttemptIgnoresExposure(cleared, old(storage) - {s}, catalog(itemId), s, connect);
      var added := AddPart(catalog(itemId), s, connect);
      LandsIff(cleared, catalog(itemId), s, connect, inWorld, blocked);
      if !added {
        return Some(InvalidStream);
      }
      if s !in storage {
        return Some(StreamError.MissingPart);
      }
      ReplacedSlot(old(storage), cleared, catalog(itemId), s, connect, inWorld, blocked);
      return None;
    }

    /**
     * One set bit of `readFromStream`: read the item id at `pos`; a part of that item in
     * the slot reads its payload in place, anything else is replaced by a part of the item,
     * which then reads the payload. The payload's reader reports a change when the payload
     * differs from the part's current one.
     */
    method ReadPresentSlot(s: Slot, t: seq<Token>, pos: nat, catalog: Catalog, connect: (NodeId, NodeId) -> bool)
      returns (r: Result<bool, StreamError>)
      requires Valid() && pos < |t| && t[pos].VarIntToken?
      modifies this`storage, this`links, this`facades, this`requiresDynamicRender, this`cleanupRequests
      modifies this`cachedShape, this`cachedCollisionShape, this`cachedCollisionShapeLiving
      ensures Valid()
      ensures r.Ok? <==> SlotReadable(old(storage), s, t, pos, catalog, connect)
      ensures r.Ok? ==> pos + 1 < |t| && t[pos + 1].PartData?
      ensures r.Ok? ==> s in storage && storage[s].data == t[pos + 1].data
      ensures r.Ok? && s in old(storage) && old(storage)[s].item == t[pos].n ==>
                storage == old(storage)[s := old(storage)[s].(data := t[pos + 1].data)]
      ensures r.Ok? && !(s in old(storage) && old(storage)[s].item == t[pos].n) ==>
                catalog(t[pos].n).PartItem? && catalog(t[pos].n).created.Some?
                && storage[s] == catalog(t[pos].n).created.value.(live := inWorld, exposedOn := storage[s].exposedOn,
                                                                   data := t[pos + 1].data)
      ensures r.Ok? && CatalogConsistent(catalog) ==> storage[s].item == t[pos].n
      ensures r.Ok? ==> SameElsewhere(old(storage), storage, s)
      ensures r.Ok? ==> (r.value <==> s in old(storage) && old(storage)[s].item == t[pos].n
                                       && old(storage)[s].data != t[pos + 1].data)
    {
      var itemId := t[pos].n;
      var changed := false;
      if s in storage && storage[s].item == itemId {
        if pos + 1 >= |t| || !t[pos + 1].PartData? {
          return Err(Truncated);
        }
        changed := storage[s].data != t[pos + 1].data;
      } else {
        var err := ReplaceFromStream(s, itemId, catalog, connect);
        if err.Some? {
          return Err(err.value);
        }
        if pos + 1 >= |t| || !t[pos + 1].PartData? {
          return Err(Truncated);
        }
      }
      LoadPayload(s, t[pos + 1].data);
      return Ok(changed);
    }

    /** A clear bit of `readFromStream`: the slot's part, if any, is removed. */
    method ClearSlot(s: Slot)
      requires Valid()
      modifies this`storage, this`links, this`facades, this`requiresDynamicRender, this`cleanupRequests
      modifies this`cachedShape, this`cachedCollisionShape, this`cachedCollisionShapeLiving
      ensures Valid()
      ensures s !in storage
      ensures SameElsewhere(old(storage), storage, s)
    {
      if s in storage {
        RemovePart(s);
        RefreshedKeepsParts(old(storage) - {s}, blocked);
      }
    }

    /**
     * One slot of `readFromStream`: a set bit reads the slot's entry at `pos`, a clear bit
     * removes the slot's part. The entry read joins `acc`, the entries read so far.
     */
    method ReadSlot(x: nat, sides: bv8, t: seq<Token>, pos: nat, catalog: Catalog, connect: (NodeId, NodeId) -> bool,
                    ghost acc: map<Slot, Entry>)
      returns (r: Result<bool, StreamError>, next: nat, ghost acc': map<Slot, Entry>)
      requires Valid() && x < 7 && Reconciled(storage, acc, x, CatalogConsistent(catalog))
      modifies this`storage, this`links, this`facades, this`requiresDynamicRender, this`cleanupRequests
      modifies this`cachedShape, this`cachedCollisionShape, this`cachedCollisionShapeLiving
      ensures Valid()
      ensures r.Ok? ==> next >= pos && Reconciled(storage, acc', x + 1, CatalogConsistent(catalog))
      ensures r.Ok? <==> (HasBit(sides, x) ==> SlotReadable(old(storage), SlotAt(x), t, pos, catalog, connect))
      ensures r.Ok? ==> Join(ParseEntries(t, pos, sides, x), acc) == Join(ParseEntries(t, next, sides, x + 1), acc')
      ensures r.Ok? && CatalogConsistent(catalog) && FromCatalog(old(storage), catalog) ==> FromCatalog(storage, catalog)
      ensures r.Ok? ==> SameElsewhere(old(storage), storage, SlotAt(x))
      ensures r.Ok? ==> forall s | s != SlotAt(x) :: (s in acc' <==> s in acc) && (s in acc ==> acc'[s] == acc[s])
      ensures r.Ok? ==> (r.value <==> InPlaceChange(old(storage), acc', SlotAt(x)))
    {
      var s := SlotAt(x);
      next, acc' := pos, acc;
      if HasBit(sides, x) {
        if pos >= |t| || !t[pos].VarIntToken? {
          return Err(Truncated), next, acc';
        }
        var read := ReadPresentSlot(s, t, pos, catalog, connect);
        if read.Err? {
          return Err(read.error), next, acc';
        }
        ReconciledPresent(old(storage), storage, acc, x, Entry(t[pos].n, t[pos + 1].data), CatalogConsistent(catalog));
        if CatalogConsistent(catalog) && !(s in old(storage) && old(storage)[s].item == t[pos].n) {
          MadeByCreated(catalog, t[pos].n, inWorld, storage[s].exposedOn, t[pos + 1].data);
        }
        if CatalogConsistent(catalog) && FromCatalog(old(storage), catalog) {
          FromCatalogStep(old(storage), storage, s, catalog);
        }
        JoinStep(t, pos, sides, x, acc);
        acc' := acc[s := Entry(t[pos].n, t[pos + 1].data)];
        assert read.value <==> InPlaceChange(old(storage), acc', s);
        return Ok(read.value), pos + 2, acc';
      }
      ClearSlot(s);
      ReconciledAbsent(old(storage), storage, acc, x, CatalogConsistent(catalog));
      if FromCatalog(old(storage), catalog) {
        FromCatalogStep(old(storage), storage, s, catalog);
      }
      assert s !in acc;
      return Ok(false), next, acc';
    }

    /** One turn of the `readFromStream` loop: read slot `x` and carry what the loop knows on to `x + 1`. */
    method ReadNextSlot(x: nat, sides: bv8, t: seq<Token>, pos: nat, catalog: Catalog, connect: (NodeId, NodeId) -> bool,
                        ghost st0: Storage, ghost acc: map<Slot, Entry>, ghost flag: bool, ghost filling: bool)
      returns (r: Result<bool, StreamError>, next: nat, ghost acc': map<Slot, Entry>)
      requires Valid() && x < 7 && ReadUpTo(st0, storage, acc, t, pos, sides, x, flag, CatalogConsistent(catalog))
      requires filling ==> st0 == map[] && StreamFits(t, catalog, connect) && FromCatalog(storage, catalog)
      modifies this`storage, this`links, this`facades, this`requiresDynamicRender, this`cleanupRequests
      modifies this`cachedShape, this`cachedCollisionShape, this`cachedCollisionShapeLiving
      ensures Valid()
      ensures filling ==> r.Ok? && FromCatalog(storage, catalog)
      ensures r.Ok? ==> ReadUpTo(st0, storage, acc', t, next, sides, x + 1, flag || r.value, CatalogConsistent(catalog))
    {
      ghost var before := storage;
      if filling && HasBit(sides, x) {
        FreshSlotReadable(storage, acc, t, pos, sides, x, catalog, connect);
      }
      r, next, acc' := ReadSlot(x, sides, t, pos, catalog, connect, acc);
      if r.Ok? {
        InPlaceChangeStep(st0, before, acc, acc', x, flag, r.value);
        UntouchedStep(st0, before, storage, x);
      }
    }

    /** The loop of `readFromStream` over the seven slots, after the occupancy byte `sides`. */
    method ReadSlots(t: seq<Token>, sides: bv8, catalog: Catalog, connect: (NodeId, NodeId) -> bool)
      returns (r: Result<bool, StreamError>, pos: nat, ghost acc: map<Slot, Entry>)
      requires Valid() && |t| > 0 && t[0] == ByteToken(sides)
      modifies this`storage, this`links, this`facades, this`requiresDynamicRender, this`cleanupRequests
      modifies this`cachedShape, this`cachedCollisionShape, this`cachedCollisionShapeLiving
      ensures Valid()
      ensures r.Ok? ==> Join(ParseEntries(t, pos, sides, 7), acc) == DecodeStream(t)
      ensures r.Ok? ==> Reconciled(storage, acc, 7, CatalogConsistent(catalog))
      ensures r.Ok? ==> (r.value <==> exists s | SlotIndex(s) < 7 :: InPlaceChange(old(storage), acc, s))
      ensures old(storage) == map[] && StreamFits(t, catalog, connect) ==> r.Ok?
    {
      var updateBlock := false;
      pos := 1;
      acc := map[];
      ghost var st0 := storage;
      ghost var filling := st0 == map[] && StreamFits(t, catalog, connect);
      JoinNothing(DecodeStream(t));
      var x := 0;
      while x < 7
        invariant Valid()
        invariant 0 <= x <= 7
        invariant ReadUpTo(st0, storage, acc, t, pos, sides, x, updateBlock, CatalogConsistent(catalog))
        invariant filling ==> FromCatalog(storage, catalog)
      {
        var read;
        read, pos, acc := ReadNextSlot(x, sides, t, pos, catalog, connect, st0, acc, updateBlock, filling);
        if read.Err? {
          return Err(read.error), pos, acc;
        }
        updateBlock := updateBlock || read.value;
        x := x + 1;
      }
      return Ok(updateBlock), pos, acc;
    }

    /**
     * `readFromStream`: reconcile the slots with the occupancy byte and the entries after it,
     * slot by slot. Unless an exception ends it, every slot is then occupied exactly when its
     * bit was set and holds the payload the stream carried (the facades' sub-stream is not
     * part of this model).
     */
    method ReadFromStream(t: seq<Token>, catalog: Catalog, connect: (NodeId, NodeId) -> bool)
      returns (res: Result<bool, StreamError>)
      requires Valid()
      modifies this`storage, this`links, this`facades, this`requiresDynamicRender, this`cleanupRequests
      modifies this`cachedShape, this`cachedCollisionShape, this`cachedCollisionShapeLiving
      ensures Valid()
      ensures DecodeStream(t).None? ==> res.Err?
      ensures res.Ok? ==> DecodeStream(t).Some? && storage.Keys == DecodeStream(t).value.Keys
      ensures res.Ok? ==> forall s | s in storage :: storage[s].data == DecodeStream(t).value[s].data
      ensures res.Ok? && CatalogConsistent(catalog) ==> Contents(storage) == DecodeStream(t).value
      ensures res.Ok? ==> (res.value <==> exists s :: InPlaceChange(old(storage), DecodeStream(t).value, s))
      ensures res.Ok? ==> cachedShape.None? && cachedCollisionShape.None? && cachedCollisionShapeLiving.None?
      ensures old(storage) == map[] && StreamFits(t, catalog, connect) ==> res.Ok?
    {
      if |t| == 0 || !t[0].ByteToken? {
        return Err(Truncated);
      }
      ghost var st0 := storage;
      var r, pos, acc := ReadSlots(t, t[0].b, catalog, connect);
      if r.Err? {
        return Err(r.error);
      }
      StreamReadDone(st0, storage, acc, t, pos, t[0].b, CatalogConsistent(catalog), r.value);
      InvalidateShapes();
      return Ok(r.value);
    }

    // ------------------------------------------------------------ the saved document

    /**
     * `writeToNBT`: the redstone ordinal under "hasRedstone", then for every part, in slot
     * order, the saved item under "def:" + id and the part's own state under "extra:" + id
     * (the facades' keys are not part of this model).
     */
    method WriteToNBT(doc: Document) returns (out: Document)
      ensures out == SavedDocument(doc, storage, hasRedstone)
      ensures RedstoneKey in out && out[RedstoneKey] == IntTag(Ordinal(hasRedstone))
      ensures forall s | s in storage ::
                Stored(out, s) && out[DefKey(s)].stack == Some(storage[s].item) && out[ExtraKey(s)].payload == storage[s].data
    {
      out := doc[RedstoneKey := IntTag(Ordinal(hasRedstone))];
      var x := 0;
      while x < 7
        invariant 0 <= x <= 7
        invariant SaveSlots(out, storage, x) == SavedDocument(doc, storage, hasRedstone)
      {
        var s := SlotAt(x);
        if s in storage {
          out := out[DefKey(s) := DefTag(storage[s])];
          out := out[ExtraKey(s) := ExtraTag(storage[s])];
        }
        x := x + 1;
      }
      forall s | s in storage
        ensures Stored(out, s) && out[DefKey(s)].stack == Some(storage[s].item) && out[ExtraKey(s)].payload == storage[s].data
      {
        SavedDocumentSlots(doc, storage, hasRedstone, s);
      }
      SavedDocumentSlots(doc, storage, hasRedstone, Center);
    }

    /**
     * One slot of `readFromNBT`: without both compounds the slot's part is removed; an
     * empty saved stack leaves the slot alone; otherwise the saved part is restored.
     */
    method LoadSlot(s: Slot, doc: Document, catalog: Catalog, connect: (NodeId, NodeId) -> bool)
      returns (r: Result<bool, NbtError>)
      requires Valid()
      modifies this`storage, this`links, this`facades, this`requiresDynamicRender, this`cleanupRequests
      modifies this`cachedShape, this`cachedCollisionShape, this`cachedCollisionShapeLiving
      ensures Valid()
      ensures r.Err? ==> r.error == NbtError.MissingPart
      ensures r == Ok(true) <==>
                Replacing(old(storage), doc, s)
                && !AddSucceeds(Attempt(old(storage) - {s}, catalog(doc[DefKey(s)].stack.value), s, connect))
      ensures r.Err? <==>
                Replacing(old(storage), doc, s)
                && AddSucceeds(Attempt(old(storage) - {s}, catalog(doc[DefKey(s)].stack.value), s, connect))
                && !Installs(old(storage) - {s}, catalog(doc[DefKey(s)].stack.value), s, connect)
      ensures r.Ok? ==> SameElsewhere(old(storage), storage, s)
      ensures r.Ok? ==> SlotLoaded(old(storage), storage, doc, s, r.value, CatalogConsistent(catalog))
      ensures r.Ok? && CatalogConsistent(catalog) && FromCatalog(old(storage), catalog) ==> FromCatalog(storage, catalog)
      ensures old(cachedShape).None? && old(cachedCollisionShape).None? && old(cachedCollisionShapeLiving).None? ==>
                cachedShape.None? && cachedCollisionShape.None? && cachedCollisionShapeLiving.None?
    {
      if !Stored(doc, s) {
        RemovePart(s);
        RefreshedKeepsParts(old(storage) - {s}, blocked);
        if FromCatalog(old(storage), catalog) {
          FromCatalogStep(old(storage), storage, s, catalog);
        }
        return Ok(false);
      }
      if doc[DefKey(s)].stack.None? {
        return Ok(false);
      }
      r := LoadSavedPart(s, doc, catalog, connect);
    }

    /**
     * The saved-stack branch of one slot of `readFromNBT`: a part of the saved item reads
     * the saved state in place; anything else is replaced by a part of that item, which
     * then reads the state, and a replacement that fails is only warned about.
     */
    method LoadSavedPart(s: Slot, doc: Document, catalog: Catalog, connect: (NodeId, NodeId) -> bool)
      returns (r: Result<bool, NbtError>)
      requires Valid() && Stored(doc, s) && doc[DefKey(s)].stack.Some?
      modifies this`storage, this`links, this`facades, this`requiresDynamicRender
      modifies this`cachedShape, this`cachedCollisionShape, this`cachedCollisionShapeLiving
      ensures Valid()
      ensures r.Err? ==> r.error == NbtError.MissingPart
      ensures r == Ok(true) <==>
                Replacing(old(storage), doc, s)
                && !AddSucceeds(Attempt(old(storage) - {s}, catalog(doc[DefKey(s)].stack.value), s, connect))
      ensures r.Err? <==>
                Replacing(old(storage), doc, s)
                && AddSucceeds(Attempt(old(storage) - {s}, catalog(doc[DefKey(s)].stack.value), s, connect))
                && !Installs(old(storage) - {s}, catalog(doc[DefKey(s)].stack.value), s, connect)
      ensures r.Ok? ==> SameElsewhere(old(storage), storage, s)
      ensures r.Ok? ==> SlotLoaded(old(storage), storage, doc, s, r.value, CatalogConsistent(catalog))
      ensures r.Ok? && CatalogConsistent(catalog) && FromCatalog(old(storage), catalog) ==> FromCatalog(storage, catalog)
      ensures old(cachedShape).None? && old(cachedCollisionShape).None? && old(cachedCollisionShapeLiving).None? ==>
                cachedShape.None? && cachedCollisionShape.None? && cachedCollisionShapeLiving.None?
    {
      var id := doc[DefKey(s)].stack.value;
      var d := doc[ExtraKey(s)].payload;
      if s in storage && storage[s].item == id {
        LoadPayload(s, d);
        if FromCatalog(old(storage), catalog) {
          FromCatalogStep(old(storage), storage, s, catalog);
        }
        return Ok(false);
      }
      r := InstallPart(s, catalog(id), d, connect);
      if r.Ok? && CatalogConsistent(catalog) && FromCatalog(old(storage), catalog) {
        InstalledFromCatalog(old(storage), storage, s, id, inWorld, d, catalog);
      }
    }

    /**
     * The part of `readFromNBT` that replaces the part in slot `s` by one created from
     * `stack` and has it read its payload `d`: `Ok(true)` when the new part could not be
     * added, an error when the slot turns out empty after an add that succeeded.
     */
    method InstallPart(s: Slot, stack: Stack, d: Payload, connect: (NodeId, NodeId) -> bool)
      returns (r: Result<bool, NbtError>)
      requires Valid()
      modifies this`storage, this`links, this`facades, this`requiresDynamicRender
      modifies this`cachedShape, this`cachedCollisionShape, this`cachedCollisionShapeLiving
      ensures Valid()
      ensures r.Err? ==> r.error == NbtError.MissingPart
      ensures r == Ok(true) <==> !AddSucceeds(Attempt(old(storage) - {s}, stack, s, connect))
      ensures r.Err? <==> AddSucceeds(Attempt(old(storage) - {s}, stack, s, connect)) && !Installs(old(storage) - {s}, stack, s, connect)
      ensures r.Ok? ==> SameElsewhere(old(storage), storage, s)
      ensures r.Ok? ==> (r.value <==> s !in storage)
      ensures r.Ok? && s in storage ==>
                stack.PartItem? && stack.created.Some?
                && storage[s] == stack.created.value.(live := inWorld, exposedOn := storage[s].exposedOn, data := d)
      ensures old(cachedShape).None? && old(cachedCollisionShape).None? && old(cachedCollisionShapeLiving).None? ==>
                cachedShape.None? && cachedCollisionShape.None? && cachedCollisionShapeLiving.None?
    {
      ghost var cleared := storage - {s};
      LandsIff(cleared, stack, s, connect, inWorld, blocked);
      var added := ReplacePart(stack, s, connect);
      if !added {
        return Ok(true);
      }
      if s !in storage {
        return Err(NbtError.MissingPart);
      }
      ReplacedSlot(old(storage), old(storage) - {s}, stack, s, connect, inWorld, blocked);
      LoadPayload(s, d);
      return Ok(false);
    }

    /**
     * `readFromNBT`: drop the caches, restore the redstone state when the key is present
     * (an ordinal out of range throws), then load the seven slots in order. Unless an
     * exception ends it, every slot satisfies `SlotLoaded`, and the result is the set of
     * slots whose saved part could not be placed (the facades' keys are not part of this model).
     */
    method ReadFromNBT(doc: Document, catalog: Catalog, connect: (NodeId, NodeId) -> bool)
      returns (res: Result<set<Slot>, NbtError>)
      requires Valid()
      modifies this`storage, this`links, this`facades, this`requiresDynamicRender, this`cleanupRequests, this`hasRedstone
      modifies this`cachedShape, this`cachedCollisionShape, this`cachedCollisionShapeLiving
      ensures Valid()
      ensures RedstoneKey in doc && YesNoAt(IntOf(doc[RedstoneKey])).None? <==> res == Err(BadRedstoneOrdinal)
      ensures res.Ok? && RedstoneKey in doc ==> Some(hasRedstone) == YesNoAt(IntOf(doc[RedstoneKey]))
      ensures RedstoneKey !in doc ==> hasRedstone == old(hasRedstone)
      ensures res.Ok? ==> forall s :: SlotLoaded(old(storage), storage, doc, s, s in res.value, CatalogConsistent(catalog))
      ensures old(storage) == map[] && DocumentFits(doc, catalog, connect) ==> res == Ok({})
      ensures cachedShape.None? && cachedCollisionShape.None? && cachedCollisionShapeLiving.None?
    {
      InvalidateShapes();
      if RedstoneKey in doc {
        var y := YesNoAt(IntOf(doc[RedstoneKey]));
        if y.None? {
          return Err(BadRedstoneOrdinal);
        }
        hasRedstone := y.value;
      }
      ghost var st0 := storage;
      ghost var redstone := hasRedstone;
      ghost var filling := st0 == map[] && DocumentFits(doc, catalog, connect);
      var warned: set<Slot> := {};
      LoadedNone(st0, doc, CatalogConsistent(catalog));
      var x := 0;
      while x < 7
        invariant 0 <= x <= 7
        invariant Valid()
        invariant Loaded(st0, storage, doc, warned, x, CatalogConsistent(catalog))
        invariant hasRedstone == redstone
        invariant cachedShape.None? && cachedCollisionShape.None? && cachedCollisionShapeLiving.None?
        invariant filling ==> warned == {} && FromCatalog(storage, catalog)
      {
        ghost var before := storage;
        if filling {
          FreshSlotLoads(storage, doc, x, catalog, connect);
        }
        var r := LoadSlot(SlotAt(x), doc, catalog, connect);
        if r.Err? {
          assert !filling;
          return Err(r.error);
        }
        assert filling ==> !r.value;
        LoadedStep(st0, before, storage, doc, warned, r.value, x, CatalogConsistent(catalog));
        if r.value {
          warned := warned + {SlotAt(x)};
        }
        x := x + 1;
      }
      LoadedAll(st0, storage, doc, warned, CatalogConsistent(catalog));
      return Ok(warned);
    }
  }

  /**
   * The network round trip: a host that reads the stream another host wrote ends up
   * with the same slots holding the same data, and, when the catalog creates what each
   * item id names, the same contents.
   */
  method StreamRoundTrip(src: CableBusContainer, dst: CableBusContainer, catalog: Catalog,
                         connect: (NodeId, NodeId) -> bool)
    returns (res: Result<bool, StreamError>)
    requires src != dst && src.Valid() && dst.Valid()
    modifies dst`storage, dst`links, dst`facades, dst`requiresDynamicRender, dst`cleanupRequests
    modifies dst`cachedShape, dst`cachedCollisionShape, dst`cachedCollisionShapeLiving
    ensures dst.Valid()
    ensures res.Ok? ==> dst.storage.Keys == src.storage.Keys
    ensures res.Ok? ==> forall s | s in dst.storage :: dst.storage[s].data == src.storage[s].data
    ensures res.Ok? && CatalogConsistent(catalog) ==> Contents(dst.storage) == Contents(src.storage)
    ensures (old(dst.storage) == map[] && CatalogConsistent(catalog) && FromCatalog(src.storage, catalog)
             && (forall a, b :: connect(a, b))) ==> res.Ok? && Contents(dst.storage) == Contents(src.storage)
  {
    var t := src.WriteToStream();
    DecodeEncodedStream(src.storage);
    if FromCatalog(src.storage, catalog) {
      ItemsInstallable(src.storage, src.inWorld, catalog);
    }
    res := dst.ReadFromStream(t, catalog, connect);
  }

  /**
   * The save/load round trip into an empty document: the redstone state comes back, no
   * ordinal error can occur, and every slot that was saved is either restored with its
   * data (and its item, for a consistent catalog) or reported as not placeable; no other
   * slot is occupied afterwards.
   */
  method NbtRoundTrip(src: CableBusContainer, dst: CableBusContainer, catalog: Catalog,
                      connect: (NodeId, NodeId) -> bool)
    returns (res: Result<set<Slot>, NbtError>)
    requires src != dst && src.Valid() && dst.Valid()
    modifies dst`storage, dst`links, dst`facades, dst`requiresDynamicRender, dst`cleanupRequests, dst`hasRedstone
    modifies dst`cachedShape, dst`cachedCollisionShape, dst`cachedCollisionShapeLiving
    ensures dst.Valid()
    ensures res.Err? ==> res.error == NbtError.MissingPart
    ensures res.Ok? ==> dst.hasRedstone == src.hasRedstone
    ensures res.Ok? ==> forall s | s in src.storage :: s in res.value <==> s !in dst.storage
    ensures res.Ok? ==> forall s | s in dst.storage :: s in src.storage && dst.storage[s].data == src.storage[s].data
    ensures res.Ok? && CatalogConsistent(catalog) ==>
              forall s | s in dst.storage :: dst.storage[s].item == src.storage[s].item
    ensures (old(dst.storage) == map[] && CatalogConsistent(catalog) && FromCatalog(src.storage, catalog)
             && (forall a, b :: connect(a, b))) ==> res == Ok({}) && Contents(dst.storage) == Contents(src.storage)
  {
    var doc := src.WriteToNBT(map[]);
    RedstoneOrdinalRoundTrip(src.hasRedstone);
    SavedItemsOfSaved(src.storage, src.hasRedstone);
    if FromCatalog(src.storage, catalog) {
      ItemsInstallable(src.storage, src.inWorld, catalog);
    }
    res := dst.ReadFromNBT(doc, catalog, connect);
    if res.Ok? {
      forall s ensures SlotLoaded(old(dst.storage), dst.storage, doc, s, s in res.value, CatalogConsistent(catalog))
                       && (s in src.storage ==> Stored(doc, s) && doc[DefKey(s)].stack == Some(src.storage[s].item)
                                                 && doc[ExtraKey(s)].payload == src.storage[s].data)
                       && (s !in src.storage ==> !Stored(doc, s))
      {
        SavedDocumentSlots(map[], src.storage, src.hasRedstone, s);
      }
    }
  }

  /**
   * A face part attached to a free side without an outward node is reached on that side
   * through the cable, and the one link `addPart` makes for it joins the side's grid node
   * to the part's node.
   */
  lemma AttachedFaceLinksToGridNode(h: CableBusContainer, stack: Stack, side: Slot, connect: (NodeId, NodeId) -> bool)
    requires side.Face? && side !in h.storage
    requires Attempt(h.storage, stack, side, connect) == Attached && !stack.created.value.isCable
    requires h.GetGridNode(side).Some? && stack.created.value.node.Some?
    ensures LinksAfterAdd(h.storage, h.links, stack, side, connect)
            == h.links + {Link(h.GetGridNode(side).value, stack.created.value.node.value)}
  {
    AttachedFaceLinksToCable(h.storage, h.links, stack, side, connect);
  }

  /**
   * After `addPart` attaches a face part with an outward node, that side reports the
   * part's outward node and outward connection type.
   */
  method AttachedFaceServesItsSide(h: CableBusContainer, stack: Stack, side: Slot, connect: (NodeId, NodeId) -> bool)
    requires h.Valid() && side.Face?
    requires Attempt(h.storage, stack, side, connect) == Attached
    requires !stack.created.value.isCable && stack.created.value.externalNode.Some?
    modifies h`storage, h`links, h`facades, h`requiresDynamicRender
    modifies h`cachedShape, h`cachedCollisionShape, h`cachedCollisionShapeLiving
    ensures h.Valid()
    ensures h.GetGridNode(side) == stack.created.value.externalNode
    ensures h.GetCableConnectionType(side) == stack.created.value.externalConnectionType
  {
    var p := stack.created.value;
    RefreshedKeepsParts(h.storage[side := p.(live := h.inWorld)], h.blocked);
    var added := h.AddPart(stack, side, connect);
    assert h.storage[side] == p.(live := h.inWorld, exposedOn := h.storage[side].exposedOn);
  }

  /** Removing a slot's part twice without updates is removing it once. */
  method RemoveWithoutUpdatesTwice(h: CableBusContainer, side: Slot)
    requires h.Valid()
    modifies h`storage, h`links
    ensures h.Valid()
    ensures h.storage == old(h.storage) - {side}
    ensures h.links == if side in old(h.storage) then Detach(old(h.links), old(h.storage)[side]) else old(h.links)
  {
    h.RemovePartWithoutUpdates(side);
    h.RemovePartWithoutUpdates(side);
  }
}
