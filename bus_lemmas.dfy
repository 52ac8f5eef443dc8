/**
 * Properties of the host model's pure functions: what the compatibility decision
 * means, what a failed attach leaves behind, and that the stream and document
 * layouts can be read back.
 */
module BusLemmas {
  import opened BusModel

  // ---------------------------------------------------------------- attaching

  /**
   * Given the compatibility invariant, a part item can be attached exactly when its
   * target slot exists and is free and the invariant still holds with the part in it.
   */
  lemma CanAttachIff(st: Storage, stack: Stack, side: Slot)
    requires Compatible(st)
    requires stack.PartItem? && stack.created.Some?
    ensures var p := stack.created.value;
            CanAttach(st, stack, side) <==>
              (p.isCable || side.Face?) && Target(p, side) !in st && Compatible(st[Target(p, side) := p])
  {
    var p := stack.created.value;
    var t := Target(p, side);
    if (p.isCable || side.Face?) && t !in st {
      var st' := st[t := p];
      if p.isCable {
        assert Lookup(st', Center) == Some(p);
        if Compatible(st') {
          forall s | s in st && s.Face? ensures IsPartCompatibleWithCable(st[s], Some(p)) {
            assert st'[s] == st[s];
          }
        }
      } else {
        assert Lookup(st', Center) == Lookup(st, Center);
        if Compatible(st') {
          assert st'[side] == p;
        }
      }
    }
  }

  /**
   * Whatever `canAddPart` accepts, `addPart` places (unless a connection fails); on a free
   * target the converse holds too. The one case `addPart` reports as added without placing
   * anything, a non-cable part with no side, is one `canAddPart` refuses.
   */
  lemma CanAttachMeansNotRefused(st: Storage, stack: Stack, side: Slot, connect: (NodeId, NodeId) -> bool)
    ensures CanAttach(st, stack, side) ==>
              Attempt(st, stack, side, connect) == Attached || Attempt(st, stack, side, connect) == ConnectionFailed
    ensures (stack.PartItem? && stack.created.Some? && Target(stack.created.value, side) !in st
             && (Attempt(st, stack, side, connect) == Attached || Attempt(st, stack, side, connect) == ConnectionFailed))
            ==> CanAttach(st, stack, side)
    ensures Attempt(st, stack, side, connect) == Unplaced <==>
              stack.PartItem? && stack.created.Some? && !stack.created.value.isCable && side.Center?
    ensures Attempt(st, stack, side, connect) == Unplaced ==> !CanAttach(st, stack, side)
  {
  }

  /** With every connection succeeding, no cable connection fails. */
  lemma {:induction false} NoCableLinkFails(st: Storage, cn: NodeId, connect: (NodeId, NodeId) -> bool, n: nat)
    requires n <= 6
    requires forall a, b :: connect(a, b)
    ensures !CableLinkFails(st, cn, connect, n)
  {
    if n > 0 {
      NoCableLinkFails(st, cn, connect, n - 1);
    }
  }

  /** When every `GridConnection.create` succeeds, an attachable part is attached. */
  lemma AttachableIsAttached(st: Storage, stack: Stack, side: Slot, connect: (NodeId, NodeId) -> bool)
    requires forall a, b :: connect(a, b)
    requires CanAttach(st, stack, side)
    ensures Attempt(st, stack, side, connect) == Attached
  {
    var p := stack.created.value;
    if p.isCable && p.node.Some? {
      NoCableLinkFails(st, p.node.value, connect, 6);
    }
  }

  /** Every link a new cable makes starts at the cable's node. */
  lemma {:induction false} CableLinksFromCable(st: Storage, cn: NodeId, n: nat)
    requires n <= 6
    ensures forall l | l in CableLinks(st, cn, n) :: l.a == cn
  {
    if n > 0 {
      CableLinksFromCable(st, cn, n - 1);
    }
  }

  /** Destroying the cable's nodes removes the links it made while connecting. */
  lemma DetachUndoesCableLinks(st: Storage, links: set<Link>, p: Part, k: nat)
    requires p.node.Some? && k <= 6
    ensures Detach(links + CableLinks(st, p.node.value, k), p) == Detach(links, p)
  {
    CableLinksFromCable(st, p.node.value, k);
    assert p.node.value in NodesOf(p);
  }

  /** Once a cable connection has failed, the attempt as a whole fails. */
  lemma {:induction false} CableLinkFailsMono(st: Storage, cn: NodeId, connect: (NodeId, NodeId) -> bool, n: nat, m: nat)
    requires n <= m <= 6
    requires CableLinkFails(st, cn, connect, n)
    ensures CableLinkFails(st, cn, connect, m)
    decreases m - n
  {
    if n < m {
      CableLinkFailsMono(st, cn, connect, n, m - 1);
    }
  }

  /**
   * `addToWorld` links the cable node to exactly the face parts at indices `x` and above
   * that have a node and whose connection succeeds.
   */
  lemma {:induction false} FaceLinksFromExactly(st: Storage, cn: NodeId, connect: (NodeId, NodeId) -> bool, x: nat)
    ensures forall l | l in FaceLinksFrom(st, cn, connect, x) ::
              l.a == cn && connect(cn, l.b)
              && exists d | x <= DirIndex(d) :: Face(d) in st && st[Face(d)].node == Some(l.b)
    ensures forall d | x <= DirIndex(d) && Face(d) in st && st[Face(d)].node.Some? && connect(cn, st[Face(d)].node.value) ::
              Link(cn, st[Face(d)].node.value) in FaceLinksFrom(st, cn, connect, x)
    decreases 6 - x
  {
    if x < 6 {
      FaceLinksFromExactly(st, cn, connect, x + 1);
      var d := Directions[x];
      assert DirIndex(d) == x;
      forall e | x <= DirIndex(e) ensures DirIndex(e) == x ==> e == d {
      }
    }
  }

  /** One step of the `addToWorld` loop adds at most the link of the face at index x. */
  lemma FaceLinksStep(st: Storage, connect: (NodeId, NodeId) -> bool, x: nat)
    requires x < 7
    ensures x < 6 && CableNode(st).Some? && FaceNode(st, x).Some? && connect(CableNode(st).value, FaceNode(st, x).value) ==>
              FaceLinksFrom(st, CableNode(st).value, connect, x)
              == FaceLinksFrom(st, CableNode(st).value, connect, x + 1) + {Link(CableNode(st).value, FaceNode(st, x).value)}
    ensures !(x < 6 && CableNode(st).Some? && FaceNode(st, x).Some? && connect(CableNode(st).value, FaceNode(st, x).value)) ==>
              CableNode(st).Some? ==>
              FaceLinksFrom(st, CableNode(st).value, connect, x) == FaceLinksFrom(st, CableNode(st).value, connect, x + 1)
    ensures x < 6 ==> FaceNode(st, x) == (if SlotAt(x) in st then st[SlotAt(x)].node else None)
  {
  }

  /** `removeFromWorld` at every part keeps exactly the links touching none of their nodes. */
  lemma {:induction false} DetachUpToExactly(links: set<Link>, st: Storage, n: nat)
    requires n <= 7
    ensures forall l :: l in DetachUpTo(links, st, n) <==>
              l in links && forall s | s in st && SlotIndex(s) < n :: l.a !in NodesOf(st[s]) && l.b !in NodesOf(st[s])
  {
    if n > 0 {
      DetachUpToExactly(links, st, n - 1);
      forall s | SlotIndex(s) < n ensures SlotIndex(s) < n - 1 || s == SlotAt(n - 1) {
        SlotAtIndex(s);
      }
    }
  }

  /** Two storages that hold the same parts, up to the sides their nodes are exposed on. */
  ghost predicate SameButExposure(a: Storage, b: Storage)
  {
    a.Keys == b.Keys && forall s | s in a :: a[s] == b[s].(exposedOn := a[s].exposedOn)
  }

  lemma CableExposedSame(st: Storage, blocked: set<Direction>)
    ensures SameButExposure(CableExposed(st, blocked), st)
  {
  }

  lemma FacesExposedSame(st: Storage)
    ensures SameButExposure(FacesExposed(st), st)
  {
    var r := FacesExposed(st);
    forall s | s in r ensures r[s] == st[s].(exposedOn := r[s].exposedOn) {
      assert r[s] == ExposeFace(s, st[s]);
    }
  }

  /** Storages that differ only in exposure have the same contents, invariants and render flag. */
  lemma SameButExposureKeeps(a: Storage, b: Storage)
    requires SameButExposure(a, b)
    ensures Contents(a) == Contents(b)
    ensures forall w :: WellFormed(b, w) ==> WellFormed(a, w)
    ensures Compatible(b) ==> Compatible(a)
    ensures AnyDynamicRender(a) == AnyDynamicRender(b)
  {
    assert forall s | s in a :: EntryOf(a[s]) == EntryOf(b[s]);
    if Compatible(b) {
      forall s | s in a && s.Face? ensures IsPartCompatibleWithCable(a[s], Lookup(a, Center)) {
        assert IsPartCompatibleWithCable(b[s], Lookup(b, Center));
      }
    }
    if AnyDynamicRender(b) {
      var s :| s in b && s.Face? && b[s].dynamicRender;
      assert a[s].dynamicRender;
    }
    if AnyDynamicRender(a) {
      var s :| s in a && s.Face? && a[s].dynamicRender;
      assert b[s].dynamicRender;
    }
  }

  /** `updateConnections` and `partChanged` change only the sides nodes are exposed on. */
  lemma RefreshedKeepsParts(st: Storage, blocked: set<Direction>)
    ensures SameButExposure(Refreshed(st, blocked), st)
    ensures Contents(Refreshed(st, blocked)) == Contents(st)
    ensures forall w :: WellFormed(st, w) ==> WellFormed(Refreshed(st, blocked), w)
    ensures Compatible(st) ==> Compatible(Refreshed(st, blocked))
    ensures AnyDynamicRender(Refreshed(st, blocked)) == AnyDynamicRender(st)
  {
    var c := CableExposed(st, blocked);
    CableExposedSame(st, blocked);
    FacesExposedSame(c);
    SameButExposureKeeps(Refreshed(st, blocked), st);
  }

  /** After a refresh the cable is exposed on all sides but the occupied and blocked ones. */
  lemma RefreshedExposesCable(st: Storage, blocked: set<Direction>)
    requires Center in st
    ensures Center in Refreshed(st, blocked)
    ensures Refreshed(st, blocked)[Center].exposedOn == ExposedSides(st, blocked)
  {
    assert Refreshed(st, blocked)[Center] == ExposeFace(Center, CableExposed(st, blocked)[Center]);
  }

  /** Bringing every part into or out of the world keeps the parts and the host's invariant. */
  lemma WithLiveKeeps(st: Storage, live: bool)
    requires exists w :: WellFormed(st, w)
    ensures Contents(WithLive(st, live)) == Contents(st)
    ensures WellFormed(WithLive(st, live), live)
    ensures Compatible(st) ==> Compatible(WithLive(st, live))
    ensures AnyDynamicRender(WithLive(st, live)) == AnyDynamicRender(st)
  {
    var r := WithLive(st, live);
    assert Lookup(r, Center).Some? ==> Lookup(r, Center).value.supportsBuses == Lookup(st, Center).value.supportsBuses;
    assert forall s | s in r :: r[s].placeableOn == st[s].placeableOn && r[s].dynamicRender == st[s].dynamicRender;
  }

  /** The storage after the `partChanged` loop has visited the faces at indices below `i`. */
  ghost function ExposedBelow(st: Storage, i: nat): (r: Storage)
  {
    map s | s in st :: if SlotIndex(s) < i then ExposeFace(s, st[s]) else st[s]
  }

  lemma ExposedBelowAgree(st: Storage, i: nat, s: Slot)
    requires i < 6 && s in st && s != SlotAt(i)
    ensures ExposedBelow(st, i)[s] == ExposedBelow(st, i + 1)[s]
  {
    SlotAtIndex(s);
  }

  lemma ExposedBelowHere(st: Storage, i: nat)
    requires i < 6 && SlotAt(i) in st
    ensures var k := SlotAt(i); var a := ExposedBelow(st, i);
            ExposedBelow(st, i + 1)[k] == if a[k].externalNode.Some? then a[k].(exposedOn := {Directions[i]}) else a[k]
  {
    var k := SlotAt(i);
    assert SlotIndex(k) == i && k.dir == Directions[i];
  }

  lemma ExposedStepExposes(st: Storage, i: nat)
    requires i < 6
    requires SlotAt(i) in ExposedBelow(st, i) && ExposedBelow(st, i)[SlotAt(i)].externalNode.Some?
    ensures var k := SlotAt(i); var a := ExposedBelow(st, i);
            ExposedBelow(st, i + 1) == a[k := a[k].(exposedOn := {Directions[i]})]
  {
    var k := SlotAt(i);
    var a := ExposedBelow(st, i);
    var b := ExposedBelow(st, i + 1);
    var c := a[k := a[k].(exposedOn := {Directions[i]})];
    forall s | s in st ensures b[s] == c[s] {
      if s != k {
        ExposedBelowAgree(st, i, s);
      } else {
        ExposedBelowHere(st, i);
      }
    }
    assert b == c;
  }

  lemma ExposedStepSkips(st: Storage, i: nat)
    requires i < 6
    requires !(SlotAt(i) in ExposedBelow(st, i) && ExposedBelow(st, i)[SlotAt(i)].externalNode.Some?)
    ensures ExposedBelow(st, i + 1) == ExposedBelow(st, i)
  {
    var k := SlotAt(i);
    var a := ExposedBelow(st, i);
    var b := ExposedBelow(st, i + 1);
    forall s | s in st ensures b[s] == a[s] {
      if s != k {
        ExposedBelowAgree(st, i, s);
      } else {
        ExposedBelowHere(st, i);
      }
    }
    assert b == a;
  }

  /** One step of the `partChanged` loop exposes the face at index i on its own side when it has an outward node. */
  lemma ExposedBelowStep(st: Storage, i: nat)
    requires i < 6
    ensures var s := SlotAt(i); var a := ExposedBelow(st, i);
            ExposedBelow(st, i + 1)
            == if s in a && a[s].externalNode.Some? then a[s := a[s].(exposedOn := {Directions[i]})] else a
  {
    var k := SlotAt(i);
    var a := ExposedBelow(st, i);
    if k in a && a[k].externalNode.Some? {
      ExposedStepExposes(st, i);
    } else {
      ExposedStepSkips(st, i);
    }
  }

  /** Before the `partChanged` loop nothing has changed; after it every face is exposed. */
  lemma ExposedBelowEnds(st: Storage)
    ensures ExposedBelow(st, 0) == st && ExposedBelow(st, 6) == FacesExposed(st)
  {
    forall s | s in st ensures ExposedBelow(st, 6)[s] == FacesExposed(st)[s] {
      SlotAtIndex(s);
    }
  }

  /** The `addToWorld` loop's step at index x leaves every other slot as it was. */
  lemma LiveFromAgree(st: Storage, x: nat, s: Slot)
    requires x < 7 && s in st && s != SlotAt(x)
    ensures LiveFrom(st, x)[s] == LiveFrom(st, x + 1)[s]
  {
    SlotAtIndex(s);
  }

  /** One step of the `addToWorld` loop brings the part at index x live. */
  lemma LiveFromStep(st: Storage, x: nat)
    requires x < 7
    ensures SlotAt(x) in st ==> LiveFrom(st, x) == LiveFrom(st, x + 1)[SlotAt(x) := st[SlotAt(x)].(live := true)]
    ensures SlotAt(x) !in st ==> LiveFrom(st, x) == LiveFrom(st, x + 1)
  {
    var k := SlotAt(x);
    var a := LiveFrom(st, x);
    var b := LiveFrom(st, x + 1);
    var c := if k in st then b[k := st[k].(live := true)] else b;
    assert SlotIndex(k) == x;
    forall s | s in st ensures a[s] == c[s] {
      if s != k {
        LiveFromAgree(st, x, s);
      }
    }
    assert a == c;
  }

  /** Before the `addToWorld` loop nothing has changed; after it every part is live. */
  lemma LiveFromEnds(st: Storage)
    ensures LiveFrom(st, 0) == WithLive(st, true) && LiveFrom(st, 7) == st
  {
    assert forall s :: SlotIndex(s) < 7;
  }

  /** The `removeFromWorld` loop's step at index x leaves every other slot as it was. */
  lemma OfflineBelowAgree(st: Storage, x: nat, s: Slot)
    requires x < 7 && s in st && s != SlotAt(x)
    ensures OfflineBelow(st, x)[s] == OfflineBelow(st, x + 1)[s]
  {
    SlotAtIndex(s);
  }

  /** One step of the `removeFromWorld` loop takes the part at index x out of the world. */
  lemma OfflineBelowStep(st: Storage, x: nat)
    requires x < 7
    ensures SlotAt(x) in st ==> OfflineBelow(st, x + 1) == OfflineBelow(st, x)[SlotAt(x) := st[SlotAt(x)].(live := false)]
    ensures SlotAt(x) !in st ==> OfflineBelow(st, x + 1) == OfflineBelow(st, x)
  {
    var k := SlotAt(x);
    var a := OfflineBelow(st, x);
    var b := OfflineBelow(st, x + 1);
    var c := if k in st then a[k := st[k].(live := false)] else a;
    assert SlotIndex(k) == x;
    forall s | s in st ensures b[s] == c[s] {
      if s != k {
        OfflineBelowAgree(st, x, s);
      }
    }
    assert b == c;
  }

  /** Before the `removeFromWorld` loop nothing has changed; after it no part is live. */
  lemma OfflineBelowEnds(st: Storage)
    ensures OfflineBelow(st, 0) == st && OfflineBelow(st, 7) == WithLive(st, false)
  {
    assert forall s :: SlotIndex(s) < 7;
  }

  /** A part reading new state of its own keeps the host's invariant. */
  lemma PayloadKeeps(st: Storage, s: Slot, d: Payload, inWorld: bool)
    requires s in st && WellFormed(st, inWorld) && Compatible(st)
    ensures WellFormed(st[s := st[s].(data := d)], inWorld) && Compatible(st[s := st[s].(data := d)])
  {
    var r := st[s := st[s].(data := d)];
    assert Lookup(r, Center).Some? ==> Lookup(r, Center).value.supportsBuses == Lookup(st, Center).value.supportsBuses;
    assert forall k | k in r :: r[k].placeableOn == st[k].placeableOn && r[k].isCable == st[k].isCable && r[k].live == st[k].live;
  }

  /** What `addPart` leads to for a cable that fits an empty centre: it is placed unless a link to a face fails. */
  lemma CableOutcome(st: Storage, links: set<Link>, stack: Stack, side: Slot, connect: (NodeId, NodeId) -> bool,
                     inWorld: bool, blocked: set<Direction>)
    requires stack.PartItem? && stack.created.Some? && stack.created.value.isCable
    requires Center !in st && forall s | s in st && s.Face? :: stack.created.value.supportsBuses in st[s].placeableOn
    ensures var p := stack.created.value;
            var fails := p.node.Some? && CableLinkFails(st, p.node.value, connect, 6);
            && Attempt(st, stack, side, connect) == (if fails then ConnectionFailed else Attached)
            && AfterAdd(st, stack, side, connect, inWorld, blocked)
               == (if fails then st else Refreshed(st[Center := p.(live := inWorld)], blocked))
            && LinksAfterAdd(st, links, stack, side, connect)
               == (if fails then Detach(links, p) else links + NewLinks(st, p))
  {
    assert FacesCompatibleWith(st, stack.created.value);
    assert st - {Center} == st;
  }

  /** What `addPart` leads to for a face part that fits the cable: it is placed unless its link to the cable fails. */
  lemma FaceOutcome(st: Storage, links: set<Link>, stack: Stack, side: Slot, connect: (NodeId, NodeId) -> bool,
                    inWorld: bool, blocked: set<Direction>)
    requires stack.PartItem? && stack.created.Some? && !stack.created.value.isCable && side.Face?
    requires IsPartCompatibleWithCable(stack.created.value, Lookup(st, Center))
    ensures var p := stack.created.value;
            var fails := CableNode(st).Some? && p.node.Some? && !connect(CableNode(st).value, p.node.value);
            && Attempt(st, stack, side, connect) == (if fails then ConnectionFailed else Attached)
            && AfterAdd(st, stack, side, connect, inWorld, blocked)
               == (if fails then st - {side} else Refreshed(st[side := p.(live := inWorld)], blocked))
            && LinksAfterAdd(st, links, stack, side, connect)
               == (if fails then Detach(links, p) else links + NewLinks(st, p))
  {
  }

  /** Dropping a face part, or a slot that is empty, keeps the host well formed and compatible. */
  lemma DropKeepsInvariant(st: Storage, t: Slot, inWorld: bool)
    requires WellFormed(st, inWorld) && Compatible(st)
    requires t.Face? || t !in st
    ensures WellFormed(st - {t}, inWorld) && Compatible(st - {t})
  {
    var st' := st - {t};
    assert Lookup(st', Center) == Lookup(st, Center);
    assert forall s | s in st' :: st'[s] == st[s];
  }

  /** Placing a part whose kind fits its slot and which fits the parts around it keeps the invariant. */
  lemma PlacedKeepsInvariant(st: Storage, p: Part, t: Slot, inWorld: bool)
    requires WellFormed(st, inWorld) && Compatible(st)
    requires p.isCable <==> t == Center
    requires p.isCable ==> FacesCompatibleWith(st, p)
    requires !p.isCable ==> IsPartCompatibleWithCable(p, Lookup(st, Center))
    ensures WellFormed(st[t := p.(live := inWorld)], inWorld) && Compatible(st[t := p.(live := inWorld)])
  {
    var placed := st[t := p.(live := inWorld)];
    if p.isCable {
      assert Lookup(placed, Center) == Some(p.(live := inWorld));
      assert forall s | s in placed && s.Face? :: placed[s] == st[s];
    } else {
      assert Lookup(placed, Center) == Lookup(st, Center);
    }
  }

  /** Placing a part, then refreshing the exposure of every part, keeps the invariant. */
  lemma PlaceKeepsInvariant(st: Storage, p: Part, t: Slot, inWorld: bool, blocked: set<Direction>)
    requires WellFormed(st, inWorld) && Compatible(st)
    requires p.isCable <==> t == Center
    requires p.isCable ==> FacesCompatibleWith(st, p)
    requires !p.isCable ==> IsPartCompatibleWithCable(p, Lookup(st, Center))
    ensures var placed := st[t := p.(live := inWorld)];
            WellFormed(Refreshed(placed, blocked), inWorld) && Compatible(Refreshed(placed, blocked))
  {
    PlacedKeepsInvariant(st, p, t, inWorld);
    RefreshedKeepsParts(st[t := p.(live := inWorld)], blocked);
  }

  /** Placing or refreshing keeps the invariant: `addPart` never breaks compatibility or well-formedness. */
  lemma AttachKeepsInvariant(st: Storage, stack: Stack, side: Slot, connect: (NodeId, NodeId) -> bool,
                             inWorld: bool, blocked: set<Direction>)
    requires WellFormed(st, inWorld) && Compatible(st)
    ensures var st' := AfterAdd(st, stack, side, connect, inWorld, blocked);
            WellFormed(st', inWorld) && Compatible(st')
  {
    match Attempt(st, stack, side, connect)
    case Refused =>
    case Unplaced =>
      RefreshedKeepsParts(st, blocked);
    case ConnectionFailed =>
      DropKeepsInvariant(st, Target(stack.created.value, side), inWorld);
    case Attached =>
      var p := stack.created.value;
      PlaceKeepsInvariant(st, p, Target(p, side), inWorld, blocked);
  }

  /**
   * A failed `addPart` touches no slot but its target, leaves the target empty when the
   * connection failed, and changes nothing at all when the part was refused.
   */
  lemma FailedAttachTouchesOnlyTarget(st: Storage, stack: Stack, side: Slot, connect: (NodeId, NodeId) -> bool,
                                      inWorld: bool, blocked: set<Direction>)
    requires !AddSucceeds(Attempt(st, stack, side, connect))
    ensures var st' := AfterAdd(st, stack, side, connect, inWorld, blocked);
            && (Attempt(st, stack, side, connect) == Refused ==> st' == st)
            && (Attempt(st, stack, side, connect) == ConnectionFailed ==>
                  var t := Target(stack.created.value, side);
                  t !in st' && forall s | s != t :: Lookup(st', s) == Lookup(st, s))
  {
  }

  /** A connection failure while attaching a cable restores the centre, so the storage is unchanged. */
  lemma CableRollbackRestoresStorage(st: Storage, stack: Stack, side: Slot, connect: (NodeId, NodeId) -> bool,
                                     inWorld: bool, blocked: set<Direction>)
    requires Attempt(st, stack, side, connect) == ConnectionFailed && stack.created.value.isCable
    ensures AfterAdd(st, stack, side, connect, inWorld, blocked) == st
  {
  }

  /**
   * An `addPart` that attaches adds exactly the new part's entry, every other slot keeping
   * its part; one that returns true without placing anything leaves the contents as they were.
   */
  lemma AttachContents(st: Storage, stack: Stack, side: Slot, connect: (NodeId, NodeId) -> bool,
                       inWorld: bool, blocked: set<Direction>)
    ensures Attempt(st, stack, side, connect) == Attached ==>
              Contents(AfterAdd(st, stack, side, connect, inWorld, blocked))
              == Contents(st)[Target(stack.created.value, side) := EntryOf(stack.created.value)]
    ensures Attempt(st, stack, side, connect) == Unplaced ==>
              Contents(AfterAdd(st, stack, side, connect, inWorld, blocked)) == Contents(st)
  {
    match Attempt(st, stack, side, connect)
    case Attached =>
      var p := stack.created.value;
      var placed := st[Target(p, side) := p.(live := inWorld)];
      ContentsUpdate(st, Target(p, side), p.(live := inWorld));
      RefreshedKeepsParts(placed, blocked);
    case Unplaced =>
      RefreshedKeepsParts(st, blocked);
    case Refused =>
    case ConnectionFailed =>
  }

  /** Storing a part in a slot stores its entry there. */
  lemma ContentsUpdate(st: Storage, t: Slot, p: Part)
    ensures Contents(st[t := p]) == Contents(st)[t := EntryOf(p)]
  {
    var a := Contents(st[t := p]);
    var b := Contents(st)[t := EntryOf(p)];
    forall s | s in a ensures a[s] == b[s] {
    }
    assert a.Keys == b.Keys;
  }

  /** When a replacement part lands in the slot it was asked for, that slot holds it and nothing else moved. */
  lemma ReplacedSlot(before: Storage, cleared: Storage, stack: Stack, s: Slot, connect: (NodeId, NodeId) -> bool,
                     inWorld: bool, blocked: set<Direction>)
    requires SameButExposure(cleared, before - {s})
    requires Installs(cleared, stack, s, connect)
    ensures var after := AfterAdd(cleared, stack, s, connect, inWorld, blocked);
            && s in after
            && after[s] == stack.created.value.(live := inWorld, exposedOn := after[s].exposedOn)
            && SameElsewhere(before, after, s)
  {
    var p := stack.created.value;
    var placed := cleared[s := p.(live := inWorld)];
    var after := AfterAdd(cleared, stack, s, connect, inWorld, blocked);
    assert after == Refreshed(placed, blocked);
    RefreshedKeepsParts(placed, blocked);
    forall k | k != s
      ensures (k in after <==> k in before) && (k in after ==> after[k] == before[k].(exposedOn := after[k].exposedOn))
    {
      if k in after {
        assert placed[k] == cleared[k];
      }
    }
  }

  /** Into an empty slot, `addPart` puts a part there exactly when the attempt installs it there. */
  lemma LandsIff(st: Storage, stack: Stack, s: Slot, connect: (NodeId, NodeId) -> bool, inWorld: bool, blocked: set<Direction>)
    requires s !in st
    ensures s in AfterAdd(st, stack, s, connect, inWorld, blocked) <==> Installs(st, stack, s, connect)
  {
    match Attempt(st, stack, s, connect)
    case Refused =>
    case ConnectionFailed =>
    case Unplaced =>
      RefreshedKeepsParts(st, blocked);
    case Attached =>
      var p := stack.created.value;
      RefreshedKeepsParts(st[Target(p, s) := p.(live := inWorld)], blocked);
  }

  /** Whether a cable connection fails depends only on the face nodes. */
  lemma {:induction false} CableLinkFailsSame(a: Storage, b: Storage, cn: NodeId, connect: (NodeId, NodeId) -> bool, n: nat)
    requires n <= 6
    requires forall x: nat | x < 6 :: FaceNode(a, x) == FaceNode(b, x)
    ensures CableLinkFails(a, cn, connect, n) == CableLinkFails(b, cn, connect, n)
  {
    if n > 0 {
      CableLinkFailsSame(a, b, cn, connect, n - 1);
    }
  }

  /** Storages that differ only in exposure lead `addPart` to the same outcome. */
  lemma AttemptIgnoresExposure(a: Storage, b: Storage, stack: Stack, side: Slot, connect: (NodeId, NodeId) -> bool)
    requires SameButExposure(a, b)
    ensures Attempt(a, stack, side, connect) == Attempt(b, stack, side, connect)
    ensures Installs(a, stack, side, connect) == Installs(b, stack, side, connect)
  {
    forall x: nat | x < 6 ensures FaceNode(a, x) == FaceNode(b, x) {
    }
    assert CableNode(a) == CableNode(b);
    assert Lookup(a, Center).Some? ==> Lookup(a, Center).value.supportsBuses == Lookup(b, Center).value.supportsBuses;
    if stack.PartItem? && stack.created.Some? {
      var p := stack.created.value;
      assert FacesCompatibleWith(a, p) == FacesCompatibleWith(b, p);
      if p.node.Some? {
        CableLinkFailsSame(a, b, p.node.value, connect, 6);
      }
    }
  }

  /** A failed attach whose new part has no links keeps the host's links. */
  lemma FailedAttachKeepsLinks(st: Storage, links: set<Link>, stack: Stack, side: Slot,
                               connect: (NodeId, NodeId) -> bool)
    requires Attempt(st, stack, side, connect) != Attached
    requires stack.PartItem? && stack.created.Some?
    requires forall l | l in links :: l.a !in NodesOf(stack.created.value) && l.b !in NodesOf(stack.created.value)
    ensures LinksAfterAdd(st, links, stack, side, connect) == links
  {
  }

  /** An attached face part is linked to the cable exactly when both have nodes. */
  lemma AttachedFaceLinksToCable(st: Storage, links: set<Link>, stack: Stack, side: Slot,
                                 connect: (NodeId, NodeId) -> bool)
    requires Attempt(st, stack, side, connect) == Attached && !stack.created.value.isCable
    ensures var p := stack.created.value;
            CableNode(st).Some? && p.node.Some? ==>
              LinksAfterAdd(st, links, stack, side, connect) == links + {Link(CableNode(st).value, p.node.value)}
    ensures var p := stack.created.value;
            CableNode(st).None? || p.node.None? ==> LinksAfterAdd(st, links, stack, side, connect) == links
  {
  }

  // ---------------------------------------------------------------- the stream mask

  lemma BitFacts(m: bv8, b: bv8, x: nat, y: nat)
    requires x < 7 && y < 7
    ensures HasBit(m | b, x) <==> HasBit(m, x) || HasBit(b, x)
    ensures HasBit(Bit(y), x) <==> x == y
    ensures !HasBit(0, x)
  {
  }

  /** Or-ing in the bit of slot n - 1 when it is occupied extends the mask of the slots below it. */
  lemma MaskStep(m: bv8, occupied: bool, n: nat, x: nat, here: bool)
    requires 0 < n <= 7 && x < 7
    requires HasBit(m, x) <==> x < n - 1 && here
    ensures HasBit(m | (if occupied then Bit(n - 1) else 0), x) <==> (x < n - 1 && here) || (x == n - 1 && occupied)
  {
    BitFacts(m, if occupied then Bit(n - 1) else 0, x, n - 1);
  }

  /** Bit x of the partial mask is set exactly when x is below n and its slot is occupied. */
  lemma {:induction false} MaskUpToBits(st: Storage, n: nat, x: nat)
    requires n <= 7 && x < 7
    ensures HasBit(MaskUpTo(st, n), x) <==> x < n && SlotAt(x) in st
  {
    if n > 0 {
      MaskUpToBits(st, n - 1, x);
      MaskStep(MaskUpTo(st, n - 1), SlotAt(n - 1) in st, n, x, SlotAt(x) in st);
    } else {
      BitFacts(0, 0, x, 0);
    }
  }

  /** Bit x of `writeToStream`'s leading byte is set exactly when the slot at index x is occupied. */
  lemma MaskBits(st: Storage, x: nat)
    requires x < 7
    ensures HasBit(Mask(st), x) <==> SlotAt(x) in st
  {
    MaskUpToBits(st, 7, x);
  }

  // ---------------------------------------------------------------- stream round trip

  function ContentsFrom(st: Storage, x: nat): (r: map<Slot, Entry>)
  {
    map s | s in st && SlotIndex(s) >= x :: EntryOf(st[s])
  }

  lemma ContentsFromZero(st: Storage)
    ensures ContentsFrom(st, 0) == Contents(st)
  {
  }

  lemma ContentsFromStep(st: Storage, x: nat)
    requires x < 7
    ensures SlotAt(x) in st ==> ContentsFrom(st, x) == ContentsFrom(st, x + 1)[SlotAt(x) := EntryOf(st[SlotAt(x)])]
    ensures SlotAt(x) !in st ==> ContentsFrom(st, x) == ContentsFrom(st, x + 1)
  {
    assert forall s :: SlotIndex(s) >= x <==> s == SlotAt(x) || SlotIndex(s) >= x + 1 by {
      forall s ensures SlotIndex(s) >= x <==> s == SlotAt(x) || SlotIndex(s) >= x + 1 {
        SlotAtIndex(s);
      }
    }
  }

  /** Appending the entries of slot x to a prefix of the stream leaves the entries of the later slots. */
  lemma EncodeEntriesStep(st: Storage, x: nat, prefix: seq<Token>)
    requires x < 7
    ensures var chunk := if SlotAt(x) in st then [VarIntToken(st[SlotAt(x)].item), PartData(st[SlotAt(x)].data)] else [];
            prefix + chunk + EncodeEntries(st, x + 1) == prefix + EncodeEntries(st, x)
  {
    var rest := EncodeEntries(st, x + 1);
    if SlotAt(x) in st {
      var chunk := [VarIntToken(st[SlotAt(x)].item), PartData(st[SlotAt(x)].data)];
      EncodeOccupied(st, x);
      assert prefix + chunk + rest == prefix + (chunk + rest);
    } else {
      assert EncodeEntries(st, x) == rest;
      assert prefix + [] == prefix;
    }
  }

  /** Reading from position pos where the entries of slots x.. were written yields those entries. */
  lemma {:induction false} ParseEncoded(st: Storage, t: seq<Token>, pos: nat, x: nat)
    requires x <= 7
    requires pos + |EncodeEntries(st, x)| <= |t|
    requires t[pos..pos + |EncodeEntries(st, x)|] == EncodeEntries(st, x)
    ensures ParseEntries(t, pos, Mask(st), x) == Some(ContentsFrom(st, x))
    decreases 7 - x
  {
    if x == 7 {
      assert ContentsFrom(st, 7) == map[];
    } else {
      var s := SlotAt(x);
      MaskBits(st, x);
      ContentsFromStep(st, x);
      if s in st {
        ParseEncodedOccupied(st, t, pos, x);
      } else {
        assert EncodeEntries(st, x) == EncodeEntries(st, x + 1);
        ParseEncoded(st, t, pos, x + 1);
      }
    }
  }

  lemma {:induction false} ParseEncodedOccupied(st: Storage, t: seq<Token>, pos: nat, x: nat)
    requires x < 7 && SlotAt(x) in st
    requires pos + |EncodeEntries(st, x)| <= |t|
    requires t[pos..pos + |EncodeEntries(st, x)|] == EncodeEntries(st, x)
    ensures ParseEntries(t, pos, Mask(st), x) == Some(ContentsFrom(st, x))
    decreases 7 - x, 0
  {
    var s := SlotAt(x);
    EncodedTokensAt(st, t, pos, x);
    ParseEncoded(st, t, pos + 2, x + 1);
    MaskBits(st, x);
    ParseStep(t, pos, Mask(st), x, ContentsFrom(st, x + 1));
    ContentsFromStep(st, x);
  }

  /** The entries written from an occupied slot start with its item id and payload. */
  lemma EncodeOccupied(st: Storage, x: nat)
    requires x < 7 && SlotAt(x) in st
    ensures EncodeEntries(st, x) == [VarIntToken(st[SlotAt(x)].item), PartData(st[SlotAt(x)].data)] + EncodeEntries(st, x + 1)
  {
  }

  /** A slice of `t` that spells two tokens and then `rest` starts with those tokens and continues with `rest`. */
  lemma SliceSplit(t: seq<Token>, pos: nat, a: Token, b: Token, rest: seq<Token>)
    requires pos + 2 + |rest| <= |t|
    requires t[pos..pos + 2 + |rest|] == [a, b] + rest
    ensures t[pos] == a && t[pos + 1] == b
    ensures t[pos + 2..pos + 2 + |rest|] == rest
  {
    var w := t[pos..pos + 2 + |rest|];
    assert t[pos] == w[0];
    assert t[pos + 1] == w[1];
    assert t[pos + 2..pos + 2 + |rest|] == w[2..];
  }

  /** Where an occupied slot's entries were written, its item id and payload come first, then the later slots' entries. */
  lemma EncodedTokensAt(st: Storage, t: seq<Token>, pos: nat, x: nat)
    requires x < 7 && SlotAt(x) in st
    requires pos + |EncodeEntries(st, x)| <= |t|
    requires t[pos..pos + |EncodeEntries(st, x)|] == EncodeEntries(st, x)
    ensures pos + 1 < |t| && t[pos] == VarIntToken(st[SlotAt(x)].item) && t[pos + 1] == PartData(st[SlotAt(x)].data)
    ensures pos + 2 + |EncodeEntries(st, x + 1)| <= |t|
    ensures t[pos + 2..pos + 2 + |EncodeEntries(st, x + 1)|] == EncodeEntries(st, x + 1)
  {
    var s := SlotAt(x);
    var rest := EncodeEntries(st, x + 1);
    EncodeOccupied(st, x);
    SliceSplit(t, pos, VarIntToken(st[s].item), PartData(st[s].data), rest);
  }

  /** Reading a set bit's entry puts it in front of the entries read after it. */
  lemma ParseStep(t: seq<Token>, pos: nat, m: bv8, x: nat, rest: map<Slot, Entry>)
    requires x < 7 && HasBit(m, x)
    requires pos + 1 < |t| && t[pos].VarIntToken? && t[pos + 1].PartData?
    requires ParseEntries(t, pos + 2, m, x + 1) == Some(rest)
    ensures ParseEntries(t, pos, m, x) == Some(rest[SlotAt(x) := Entry(t[pos].n, t[pos + 1].data)])
  {
  }

  /** `st2` holds the same parts as `st1` outside slot `s`, up to the sides their nodes are exposed on. */
  ghost predicate SameElsewhere(st1: Storage, st2: Storage, s: Slot)
  {
    forall k | k != s :: (k in st2 <==> k in st1) && (k in st2 ==> st2[k] == st1[k].(exposedOn := st2[k].exposedOn))
  }

  /**
   * The slots at indices below `x` agree with the entries `acc` read for them: a slot is
   * occupied exactly when it has an entry and carries the entry's payload, and, when
   * `items` holds, the entry's item.
   */
  ghost predicate Reconciled(st: Storage, acc: map<Slot, Entry>, x: nat, items: bool)
  {
    && (forall s | SlotIndex(s) < x :: s in st <==> s in acc)
    && (forall s | s in acc :: SlotIndex(s) < x && s in st && st[s].data == acc[s].data)
    && (items ==> forall s | s in acc :: st[s].item == acc[s].item)
  }

  lemma ReconciledPresent(st1: Storage, st2: Storage, acc: map<Slot, Entry>, x: nat, e: Entry, items: bool)
    requires x < 7 && Reconciled(st1, acc, x, items) && SameElsewhere(st1, st2, SlotAt(x))
    requires SlotAt(x) in st2 && st2[SlotAt(x)].data == e.data && (items ==> st2[SlotAt(x)].item == e.item)
    ensures SlotAt(x) !in acc
    ensures Reconciled(st2, acc[SlotAt(x) := e], x + 1, items)
  {
    var here := SlotAt(x);
    var acc2 := acc[here := e];
    forall s | SlotIndex(s) < x + 1 ensures s in st2 <==> s in acc2 {
      SlotAtIndex(s);
      if s != here {
        assert SlotIndex(s) < x;
      }
    }
    forall s | s in acc2 ensures SlotIndex(s) < x + 1 && s in st2 && st2[s].data == acc2[s].data {
      if s != here {
        assert EntryOf(st2[s]) == EntryOf(st1[s]);
      }
    }
    if items {
      forall s | s in acc2 ensures st2[s].item == acc2[s].item {
        if s != here {
          assert EntryOf(st2[s]) == EntryOf(st1[s]);
        }
      }
    }
  }

  lemma ReconciledAbsent(st1: Storage, st2: Storage, acc: map<Slot, Entry>, x: nat, items: bool)
    requires x < 7 && Reconciled(st1, acc, x, items) && SameElsewhere(st1, st2, SlotAt(x))
    requires SlotAt(x) !in st2
    ensures Reconciled(st2, acc, x + 1, items)
  {
    forall s | SlotIndex(s) < x + 1 ensures SlotIndex(s) < x || s == SlotAt(x) {
      SlotAtIndex(s);
    }
  }

  /** After all seven slots, the storage holds exactly the entries read. */
  lemma ReconciledAll(st: Storage, acc: map<Slot, Entry>, items: bool)
    requires Reconciled(st, acc, 7, items)
    ensures st.Keys == acc.Keys
    ensures forall s | s in st :: st[s].data == acc[s].data
    ensures items ==> Contents(st) == acc
  {
    assert forall s :: SlotIndex(s) < 7;
  }

  /**
   * The slot keeps a part of the item the entry names, and the entry carries a payload
   * that differs from the part's: the part reads it in place and reports a change.
   */
  predicate InPlaceChange(st: Storage, entries: map<Slot, Entry>, s: Slot)
  {
    s in st && s in entries && st[s].item == entries[s].item && st[s].data != entries[s].data
  }

  /** The slots at indices `x` and above still hold what they held in `st0`. */
  ghost predicate UntouchedFrom(st0: Storage, st: Storage, x: nat)
  {
    forall s | SlotIndex(s) >= x :: (s in st <==> s in st0) && (s in st ==> EntryOf(st[s]) == EntryOf(st0[s]))
  }

  /** Reading slot `x` leaves the slots above it untouched. */
  lemma UntouchedStep(st0: Storage, st1: Storage, st2: Storage, x: nat)
    requires x < 7 && UntouchedFrom(st0, st1, x) && SameElsewhere(st1, st2, SlotAt(x))
    ensures UntouchedFrom(st0, st2, x + 1)
  {
    forall s | SlotIndex(s) >= x + 1 ensures s != SlotAt(x) {
      SlotAtIndex(s);
    }
  }

  /** The change flag of the first `x + 1` slots: that of the first `x`, or the change at slot `x`. */
  lemma InPlaceChangeStep(st0: Storage, st1: Storage, acc: map<Slot, Entry>, acc': map<Slot, Entry>,
                          x: nat, before: bool, here: bool)
    requires x < 7
    requires before <==> exists s | SlotIndex(s) < x :: InPlaceChange(st0, acc, s)
    requires forall s | s != SlotAt(x) :: (s in acc' <==> s in acc) && (s in acc ==> acc'[s] == acc[s])
    requires UntouchedFrom(st0, st1, x)
    requires here <==> InPlaceChange(st1, acc', SlotAt(x))
    ensures (before || here) <==> exists s | SlotIndex(s) < x + 1 :: InPlaceChange(st0, acc', s)
  {
    var k := SlotAt(x);
    assert SlotIndex(k) == x;
    forall s | SlotIndex(s) < x ensures InPlaceChange(st0, acc, s) <==> InPlaceChange(st0, acc', s) {
      SlotAtIndex(s);
    }
    forall s | SlotIndex(s) < x + 1 ensures SlotIndex(s) < x || s == k {
      SlotAtIndex(s);
    }
    assert here <==> InPlaceChange(st0, acc', k);
  }

  /**
   * `readFromStream` has read the slots below `x`: what was read, joined with what is
   * left to parse, is the decoded stream; those slots agree with it; the slots from `x`
   * on are as they were in `st0`; and `flag` says whether a kept part read a changed payload.
   */
  ghost predicate ReadUpTo(st0: Storage, st: Storage, acc: map<Slot, Entry>, t: seq<Token>, pos: nat, m: bv8,
                           x: nat, flag: bool, items: bool)
  {
    && x <= 7
    && Join(ParseEntries(t, pos, m, x), acc) == DecodeStream(t)
    && Reconciled(st, acc, x, items)
    && UntouchedFrom(st0, st, x)
    && (flag <==> exists s | SlotIndex(s) < x :: InPlaceChange(st0, acc, s))
  }

  /** After the seventh slot, what was read is the decoded stream, and the storage and change flag agree with it. */
  lemma StreamReadDone(st0: Storage, st: Storage, acc: map<Slot, Entry>, t: seq<Token>, pos: nat, m: bv8,
                       items: bool, flag: bool)
    requires Join(ParseEntries(t, pos, m, 7), acc) == DecodeStream(t)
    requires Reconciled(st, acc, 7, items)
    requires flag <==> exists s | SlotIndex(s) < 7 :: InPlaceChange(st0, acc, s)
    ensures DecodeStream(t) == Some(acc)
    ensures st.Keys == acc.Keys && forall s | s in st :: st[s].data == acc[s].data
    ensures items ==> Contents(st) == acc
    ensures flag <==> exists s :: InPlaceChange(st0, acc, s)
  {
    ReconciledAll(st, acc, items);
    assert map[] + acc == acc;
    assert forall s :: SlotIndex(s) < 7;
  }

  /** Reading one entry moves it from what is left to parse into what was read. */
  lemma JoinStep(t: seq<Token>, pos: nat, m: bv8, x: nat, acc: map<Slot, Entry>)
    requires x < 7 && HasBit(m, x) && SlotAt(x) !in acc
    requires pos + 1 < |t| && t[pos].VarIntToken? && t[pos + 1].PartData?
    ensures Join(ParseEntries(t, pos, m, x), acc)
            == Join(ParseEntries(t, pos + 2, m, x + 1), acc[SlotAt(x) := Entry(t[pos].n, t[pos + 1].data)])
  {
    match ParseEntries(t, pos + 2, m, x + 1)
    case None =>
    case Some(rest) =>
      var e := Entry(t[pos].n, t[pos + 1].data);
      assert rest[SlotAt(x) := e] + acc == rest + acc[SlotAt(x) := e];
  }

  lemma JoinNothing(r: Option<map<Slot, Entry>>)
    ensures Join(r, map[]) == r
  {
    match r
    case None =>
    case Some(m) => assert m + map[] == m;
  }

  /** A stream that starts with the occupancy byte is read from position 1 with that byte as mask. */
  lemma StreamHeader(t: seq<Token>, m: bv8, e: seq<Token>)
    requires t == [ByteToken(m)] + e
    ensures 1 + |e| <= |t| && t[1..1 + |e|] == e
    ensures DecodeStream(t) == ParseEntries(t, 1, m, 0)
  {
    assert t[1..] == e;
  }

  /** Decoding what `writeToStream` wrote gives back every occupied slot's item id and payload. */
  lemma DecodeEncodedStream(st: Storage)
    ensures DecodeStream(EncodeStream(st)) == Some(Contents(st))
  {
    var t := EncodeStream(st);
    StreamHeader(t, Mask(st), EncodeEntries(st, 0));
    ParseEncoded(st, t, 1, 0);
    ContentsFromZero(st);
  }

  /** The entries read for slots x.. belong to slots x.. whose bits are set. */
  lemma {:induction false} ParsedSlots(t: seq<Token>, pos: nat, m: bv8, x: nat)
    requires x <= 7
    ensures ParseEntries(t, pos, m, x).Some? ==>
              forall s | s in ParseEntries(t, pos, m, x).value :: SlotIndex(s) >= x && HasBit(m, SlotIndex(s))
    decreases 7 - x
  {
    if x < 7 {
      if HasBit(m, x) {
        ParsedSlots(t, pos + 2, m, x + 1);
      } else {
        ParsedSlots(t, pos, m, x + 1);
      }
    }
  }

  /** A slot whose bit is set is present in what the reader decodes. */
  lemma {:induction false} ParsedSlotsComplete(t: seq<Token>, pos: nat, m: bv8, x: nat, y: nat)
    requires x <= y < 7 && HasBit(m, y)
    requires ParseEntries(t, pos, m, x).Some?
    ensures SlotAt(y) in ParseEntries(t, pos, m, x).value
    decreases 7 - x
  {
    if HasBit(m, x) {
      if x < y {
        ParsedSlotsComplete(t, pos + 2, m, x + 1, y);
      }
    } else {
      ParsedSlotsComplete(t, pos, m, x + 1, y);
    }
  }

  // ---------------------------------------------------------------- document keys

  lemma SlotNameInjective(s: Slot, t: Slot)
    ensures SlotName(s) == SlotName(t) ==> s == t
  {
  }

  /** The document keys of different slots, the two keys of one slot and the redstone key are all distinct. */
  lemma KeysDistinct(s: Slot, t: Slot)
    ensures DefKey(s) == DefKey(t) ==> s == t
    ensures ExtraKey(s) == ExtraKey(t) ==> s == t
    ensures DefKey(s) != ExtraKey(t)
    ensures DefKey(s) != RedstoneKey && ExtraKey(s) != RedstoneKey
  {
    SlotNameInjective(s, t);
    if DefKey(s) == DefKey(t) {
      assert SlotName(s) == DefKey(s)[4..];
      assert SlotName(t) == DefKey(t)[4..];
    }
    if ExtraKey(s) == ExtraKey(t) {
      assert SlotName(s) == ExtraKey(s)[6..];
      assert SlotName(t) == ExtraKey(t)[6..];
    }
    assert DefKey(s)[0] == 'd' && ExtraKey(t)[0] == 'e' && RedstoneKey[0] == 'h';
    assert ExtraKey(s)[0] == 'e';
  }

  /** Saving the redstone state as its ordinal and reading it back restores it. */
  lemma RedstoneOrdinalRoundTrip(y: YesNo)
    ensures YesNoAt(IntOf(IntTag(Ordinal(y)))) == Some(y)
  {
  }

  // ---------------------------------------------------------------- the saved document

  /** Writing a slot's compounds touches no key of another slot and no other key. */
  lemma {:induction false} SaveSlotsAt(doc: Document, st: Storage, x: nat, s: Slot)
    requires x <= 7
    ensures var r := SaveSlots(doc, st, x);
            SlotIndex(s) >= x && s in st ==>
              DefKey(s) in r && r[DefKey(s)] == DefTag(st[s]) && ExtraKey(s) in r && r[ExtraKey(s)] == ExtraTag(st[s])
    ensures var r := SaveSlots(doc, st, x);
            !(SlotIndex(s) >= x && s in st) ==>
              (DefKey(s) in r <==> DefKey(s) in doc) && (DefKey(s) in r ==> r[DefKey(s)] == doc[DefKey(s)])
              && (ExtraKey(s) in r <==> ExtraKey(s) in doc) && (ExtraKey(s) in r ==> r[ExtraKey(s)] == doc[ExtraKey(s)])
    decreases 7 - x
  {
    if x < 7 {
      var t := SlotAt(x);
      var doc' := if t in st then doc[DefKey(t) := DefTag(st[t])][ExtraKey(t) := ExtraTag(st[t])] else doc;
      SaveSlotsAt(doc', st, x + 1, s);
      KeysDistinct(s, t);
      KeysDistinct(t, s);
      SlotAtIndex(s);
    }
  }

  /** Keys that belong to no slot are carried over unchanged. */
  lemma {:induction false} SaveSlotsOther(doc: Document, st: Storage, x: nat, k: string)
    requires x <= 7
    requires forall s :: k != DefKey(s) && k != ExtraKey(s)
    ensures (k in SaveSlots(doc, st, x) <==> k in doc) && (k in doc ==> SaveSlots(doc, st, x)[k] == doc[k])
    decreases 7 - x
  {
    if x < 7 {
      var t := SlotAt(x);
      var doc' := if t in st then doc[DefKey(t) := DefTag(st[t])][ExtraKey(t) := ExtraTag(st[t])] else doc;
      SaveSlotsOther(doc', st, x + 1, k);
    }
  }

  /**
   * The saved document holds the redstone ordinal and, for every part, its item and its
   * state under the slot's two keys; a slot without a part keeps what `doc` had.
   */
  lemma SavedDocumentSlots(doc: Document, st: Storage, y: YesNo, s: Slot)
    ensures var r := SavedDocument(doc, st, y);
            RedstoneKey in r && r[RedstoneKey] == IntTag(Ordinal(y))
    ensures var r := SavedDocument(doc, st, y);
            s in st ==> Stored(r, s) && r[DefKey(s)].stack == Some(st[s].item) && r[ExtraKey(s)].payload == st[s].data
    ensures var r := SavedDocument(doc, st, y);
            s !in st ==> (Stored(r, s) <==> Stored(doc, s))
  {
    var d0 := doc[RedstoneKey := IntTag(Ordinal(y))];
    SaveSlotsAt(d0, st, 0, s);
    forall t ensures RedstoneKey != DefKey(t) && RedstoneKey != ExtraKey(t) {
      KeysDistinct(t, t);
    }
    SaveSlotsOther(d0, st, 0, RedstoneKey);
    KeysDistinct(s, s);
    if s !in st {
      assert DefKey(s) in d0 <==> DefKey(s) in doc;
      assert DefKey(s) in doc ==> d0[DefKey(s)] == doc[DefKey(s)];
      assert ExtraKey(s) in d0 <==> ExtraKey(s) in doc;
      assert ExtraKey(s) in doc ==> d0[ExtraKey(s)] == doc[ExtraKey(s)];
    }
  }

  /** Keys of `doc` that belong to no slot and are not the redstone key survive `writeToNBT`. */
  lemma SavedDocumentKeepsOtherKeys(doc: Document, st: Storage, y: YesNo, k: string)
    requires k in doc && k != RedstoneKey
    requires forall s :: k != DefKey(s) && k != ExtraKey(s)
    ensures k in SavedDocument(doc, st, y) && SavedDocument(doc, st, y)[k] == doc[k]
  {
    SaveSlotsOther(doc[RedstoneKey := IntTag(Ordinal(y))], st, 0, k);
  }

  /**
   * `readFromNBT` has handled the slots below `x`; the slots from `x` on still hold the
   * parts they held at the start.
   */
  ghost predicate Loaded(st0: Storage, st: Storage, doc: Document, warned: set<Slot>, x: nat, items: bool)
  {
    && (forall s | SlotIndex(s) < x :: SlotLoaded(st0, st, doc, s, s in warned, items))
    && (forall s | SlotIndex(s) >= x :: (s in st <==> s in st0) && (s in st ==> EntryOf(st[s]) == EntryOf(st0[s])))
    && (forall s | s in warned :: SlotIndex(s) < x)
  }

  lemma LoadedStep(st0: Storage, st1: Storage, st2: Storage, doc: Document, warned: set<Slot>, w: bool, x: nat, items: bool)
    requires x < 7 && Loaded(st0, st1, doc, warned, x, items)
    requires SameElsewhere(st1, st2, SlotAt(x)) && SlotLoaded(st1, st2, doc, SlotAt(x), w, items)
    ensures Loaded(st0, st2, doc, if w then warned + {SlotAt(x)} else warned, x + 1, items)
  {
    var here := SlotAt(x);
    var warned2 := if w then warned + {here} else warned;
    forall s | SlotIndex(s) < x + 1 ensures SlotLoaded(st0, st2, doc, s, s in warned2, items) {
      SlotAtIndex(s);
      if s != here {
        assert SlotIndex(s) < x;
        assert SlotLoaded(st0, st1, doc, s, s in warned, items);
      }
    }
    forall s | SlotIndex(s) >= x + 1 ensures (s in st2 <==> s in st0) && (s in st2 ==> EntryOf(st2[s]) == EntryOf(st0[s])) {
      assert s != here;
    }
  }

  lemma LoadedAll(st0: Storage, st: Storage, doc: Document, warned: set<Slot>, items: bool)
    requires Loaded(st0, st, doc, warned, 7, items)
    ensures forall s :: SlotLoaded(st0, st, doc, s, s in warned, items)
  {
    assert forall s :: SlotIndex(s) < 7;
  }

  lemma LoadedNone(st0: Storage, doc: Document, items: bool)
    ensures Loaded(st0, st0, doc, {}, 0, items)
  {
  }

  // ---------------------------------------------------------------- filling a fresh host

  lemma AllSlotsComplete()
    ensures forall s: Slot :: s in AllSlots
  {
    forall s: Slot ensures s in AllSlots {
      match s
      case Center =>
      case Face(d) => match d case Down => case Up => case North => case South => case West => case East =>
    }
  }

  /** Slot `s` changed into a part the catalog made, and nothing else changed apart from exposure: the catalog still made every part. */
  lemma FromCatalogStep(st1: Storage, st2: Storage, s: Slot, catalog: Catalog)
    requires FromCatalog(st1, catalog) && SameElsewhere(st1, st2, s)
    requires s in st2 ==> MadeBy(catalog, st2[s])
    ensures FromCatalog(st2, catalog)
  {
    forall k | k in st2 ensures MadeBy(catalog, st2[k]) {
      if k != s {
        assert MadeBy(catalog, st1[k]);
      }
    }
  }

  /** A part the catalog creates for `id` is, after any change of state, still one the catalog made. */
  lemma MadeByCreated(catalog: Catalog, id: ItemId, live: bool, sides: set<Direction>, d: Payload)
    requires CatalogConsistent(catalog) && catalog(id).PartItem? && catalog(id).created.Some?
    ensures MadeBy(catalog, catalog(id).created.value.(live := live, exposedOn := sides, data := d))
  {
    assert catalog(id).created.value.item == id;
  }

  /**
   * Slot `s` now either is empty or holds the part the catalog creates for `id`, with any
   * state, and nothing else changed apart from exposure: the catalog still made every part.
   */
  lemma InstalledFromCatalog(st1: Storage, st2: Storage, s: Slot, id: ItemId, live: bool, d: Payload, catalog: Catalog)
    requires CatalogConsistent(catalog) && FromCatalog(st1, catalog) && SameElsewhere(st1, st2, s)
    requires s in st2 ==> catalog(id).PartItem? && catalog(id).created.Some?
                          && st2[s] == catalog(id).created.value.(live := live, exposedOn := st2[s].exposedOn, data := d)
    ensures FromCatalog(st2, catalog)
  {
    if s in st2 {
      MadeByCreated(catalog, id, live, st2[s].exposedOn, d);
    }
    FromCatalogStep(st1, st2, s, catalog);
  }

  /** A valid host whose parts the catalog made can be rebuilt from its item ids. */
  lemma ItemsInstallable(st: Storage, inWorld: bool, catalog: Catalog)
    requires WellFormed(st, inWorld) && Compatible(st) && FromCatalog(st, catalog)
    ensures Installable(ItemsOf(Contents(st)), catalog)
  {
    var items := ItemsOf(Contents(st));
    forall s | s in items
      ensures catalog(items[s]).PartItem? && catalog(items[s]).created.Some?
              && (catalog(items[s]).created.value.isCable <==> s == Center)
    {
      assert items[s] == st[s].item && MadeBy(catalog, st[s]);
    }
    if Center in items {
      forall f | f in items && f.Face?
        ensures catalog(items[Center]).created.value.supportsBuses in catalog(items[f]).created.value.placeableOn
      {
        assert items[f] == st[f].item && MadeBy(catalog, st[f]);
        assert items[Center] == st[Center].item && MadeBy(catalog, st[Center]);
        assert IsPartCompatibleWithCable(st[f], Lookup(st, Center));
      }
    }
  }

  /**
   * A host holding, below index `x` only, parts the catalog made for `items` takes the
   * part for slot `x` into that slot when every connection succeeds.
   */
  lemma InstallsIntoFresh(st: Storage, items: map<Slot, ItemId>, catalog: Catalog, connect: (NodeId, NodeId) -> bool, x: nat)
    requires x < 7 && SlotAt(x) in items && Installable(items, catalog) && (forall a, b :: connect(a, b))
    requires FromCatalog(st, catalog)
    requires forall s | s in st :: SlotIndex(s) < x && s in items && st[s].item == items[s]
    ensures Installs(st - {SlotAt(x)}, catalog(items[SlotAt(x)]), SlotAt(x), connect)
  {
    var s := SlotAt(x);
    assert s !in st;
    assert st - {s} == st;
    var p := catalog(items[s]).created.value;
    if p.isCable {
      forall f | f in st && f.Face? ensures p.supportsBuses in st[f].placeableOn {
        assert MadeBy(catalog, st[f]);
      }
      assert FacesCompatibleWith(st, p);
      if p.node.Some? {
        NoCableLinkFails(st, p.node.value, connect, 6);
      }
    } else {
      assert Center !in st;
    }
  }

  /**
   * A stream an empty host takes in whole: it is well formed, the catalog creates what its
   * item ids name, each item's part fits the slot it is listed for, and every connection succeeds.
   */
  ghost predicate StreamFits(t: seq<Token>, catalog: Catalog, connect: (NodeId, NodeId) -> bool)
  {
    && DecodeStream(t).Some? && CatalogConsistent(catalog) && (forall a, b :: connect(a, b))
    && Installable(ItemsOf(DecodeStream(t).value), catalog)
  }

  /**
   * Reading slot `x` of a stream into a host that was empty: the slots read so far hold
   * the parts the catalog made for them, so the slot at `x`, if its bit is set, can be read.
   */
  lemma FreshSlotReadable(st: Storage, acc: map<Slot, Entry>, t: seq<Token>, pos: nat, m: bv8, x: nat,
                          catalog: Catalog, connect: (NodeId, NodeId) -> bool)
    requires x < 7 && HasBit(m, x) && StreamFits(t, catalog, connect)
    requires Join(ParseEntries(t, pos, m, x), acc) == DecodeStream(t)
    requires Reconciled(st, acc, x, true) && FromCatalog(st, catalog) && UntouchedFrom(map[], st, x)
    ensures SlotReadable(st, SlotAt(x), t, pos, catalog, connect)
  {
    var d := DecodeStream(t).value;
    var here := SlotAt(x);
    var rest := ParseEntries(t, pos, m, x + 1 - 1).value;
    assert pos + 1 < |t| && t[pos].VarIntToken? && t[pos + 1].PartData?;
    assert here !in acc;
    assert rest[here] == Entry(t[pos].n, t[pos + 1].data);
    assert d == rest + acc;
    assert d[here].item == t[pos].n;
    var items := ItemsOf(d);
    forall s | s in st ensures SlotIndex(s) < x && s in items && st[s].item == items[s] {
      assert s in acc;
    }
    InstallsIntoFresh(st, items, catalog, connect, x);
  }

  /**
   * A document an empty host loads in whole: its redstone ordinal, if any, is in range, the
   * catalog creates what its saved items name, each item's part fits the slot it is saved
   * for, and every connection succeeds.
   */
  ghost predicate DocumentFits(doc: Document, catalog: Catalog, connect: (NodeId, NodeId) -> bool)
  {
    && !(RedstoneKey in doc && YesNoAt(IntOf(doc[RedstoneKey])).None?)
    && CatalogConsistent(catalog) && (forall a, b :: connect(a, b))
    && Installable(SavedItems(doc), catalog)
  }

  /**
   * Loading slot `x` of a document into a host that was empty, with nothing warned so far:
   * the slot is still empty, and a part to be installed there is installed.
   */
  lemma FreshSlotLoads(st: Storage, doc: Document, x: nat, catalog: Catalog, connect: (NodeId, NodeId) -> bool)
    requires x < 7 && Loaded(map[], st, doc, {}, x, true) && FromCatalog(st, catalog)
    requires DocumentFits(doc, catalog, connect)
    ensures SlotAt(x) !in st
    ensures Replacing(st, doc, SlotAt(x)) ==>
              Installs(st - {SlotAt(x)}, catalog(doc[DefKey(SlotAt(x))].stack.value), SlotAt(x), connect)
  {
    var here := SlotAt(x);
    var items := SavedItems(doc);
    AllSlotsComplete();
    forall s | s in st ensures SlotIndex(s) < x && s in items && st[s].item == items[s] {
      assert SlotLoaded(map[], st, doc, s, false, true);
    }
    if Replacing(st, doc, here) {
      assert here in items;
      InstallsIntoFresh(st, items, catalog, connect, x);
    }
  }

  /** The items a document written from `st` would install are the items of `st`. */
  lemma SavedItemsOfSaved(st: Storage, y: YesNo)
    ensures SavedItems(SavedDocument(map[], st, y)) == ItemsOf(Contents(st))
  {
    var doc := SavedDocument(map[], st, y);
    AllSlotsComplete();
    forall s ensures (s in SavedItems(doc) <==> s in st) && (s in st ==> SavedItems(doc)[s] == st[s].item) {
      SavedDocumentSlots(map[], st, y, s);
    }
  }
}
