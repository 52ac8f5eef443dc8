/**
 * Values of the cable-bus host model: the seven slots of a host, the abstract
 * record a part reduces to, and the pure functions that say what the host's
 * operations compute (compatibility, exposed sides, shapes, the network stream
 * and the saved-document layout).
 */
module BusModel {

  datatype Option<+T> = None | Some(value: T)

  datatype Result<+T, +E> = Ok(value: T) | Err(error: E)

  datatype Direction = Down | Up | North | South | West | East

  /** A part location: one of the six faces, or the centre (a `null` direction), which holds the cable. */
  datatype Slot = Face(dir: Direction) | Center

  /** `Direction.values()`. */
  const Directions: seq<Direction> := [Down, Up, North, South, West, East]

  const AllDirections: set<Direction> := {Down, Up, North, South, West, East}

  lemma AllDirectionsComplete()
    ensures forall d: Direction :: d in AllDirections
  {
    forall d: Direction ensures d in AllDirections {
      match d
      case Down => case Up => case North => case South => case West => case East =>
    }
  }

  function DirIndex(d: Direction): (x: nat)
    ensures x < 6 && Directions[x] == d
  {
    match d
    case Down => 0
    case Up => 1
    case North => 2
    case South => 3
    case West => 4
    case East => 5
  }

  /** `DIRECTIONS_WITH_NULL[x]`: the six directions in order, then the centre at index 6. */
  function SlotAt(x: nat): (s: Slot)
    requires x < 7
    ensures SlotIndex(s) == x
  {
    if x < 6 then Face(Directions[x]) else Center
  }

  function SlotIndex(s: Slot): (x: nat)
    ensures x < 7
  {
    match s
    case Face(d) => DirIndex(d)
    case Center => 6
  }

  lemma SlotAtIndex(s: Slot)
    ensures SlotAt(SlotIndex(s)) == s
  {
  }

  type ItemId = int
  type NodeId = nat
  /** The value of a cable's `supportsBuses()`; parts list the values they can be placed on. */
  type BusSupport = nat
  /** A part's own serialised state, opaque to the host. */
  type Payload = seq<int>

  /** `AECableType` apart from NONE, which is `None` where a connection type is optional. */
  datatype CableType = Glass | Covered | Smart | DenseCovered | DenseSmart

  /**
   * What the host sees of a part. `isCable` marks an `ICablePart`; `supportsBuses`
   * is meaningful for cables, `placeableOn` is `canBePlacedOn` as the set of bus
   * kinds it accepts. `live` records `addToWorld`/`removeFromWorld`, `exposedOn` the
   * sides its outward node was last exposed on, `data` its synchronised state.
   */
  datatype Part = Part(
    item: ItemId,
    isCable: bool,
    supportsBuses: BusSupport,
    placeableOn: set<BusSupport>,
    node: Option<NodeId>,
    externalNode: Option<NodeId>,
    connectionType: Option<CableType>,
    externalConnectionType: Option<CableType>,
    lightLevel: int,
    dynamicRender: bool,
    live: bool,
    exposedOn: set<Direction>,
    data: Payload)

  /** An item stack offered to the host: not a part item, or a part item whose `createPart` may yield nothing. */
  datatype Stack = OtherItem | PartItem(created: Option<Part>)

  /** `Item.byId` followed by `new ItemStack(item, 1)`. */
  type Catalog = ItemId -> Stack

  /** Every part a catalog creates carries the item id it was created from. */
  ghost predicate CatalogConsistent(catalog: Catalog)
  {
    forall id :: catalog(id).PartItem? && catalog(id).created.Some? ==> catalog(id).created.value.item == id
  }

  /** `p` is of the kind `q` is: the same item, cable flag and bus compatibilities. */
  predicate SameKind(p: Part, q: Part)
  {
    p.item == q.item && p.isCable == q.isCable && p.supportsBuses == q.supportsBuses && p.placeableOn == q.placeableOn
  }

  /** The catalog creates a part for `p`'s item, and that part is of `p`'s kind. */
  predicate MadeBy(catalog: Catalog, p: Part)
  {
    catalog(p.item).PartItem? && catalog(p.item).created.Some? && SameKind(p, catalog(p.item).created.value)
  }

  /** Every part in `st` is of the kind the catalog creates for its item. */
  ghost predicate FromCatalog(st: Storage, catalog: Catalog)
  {
    forall s | s in st :: MadeBy(catalog, st[s])
  }

  /**
   * A host can be filled from scratch with the parts the catalog creates for `items`: it
   * creates a part for every item, a cable exactly for the centre, and every face part fits
   * the centre's cable.
   */
  ghost predicate Installable(items: map<Slot, ItemId>, catalog: Catalog)
  {
    && (forall s | s in items :: catalog(items[s]).PartItem? && catalog(items[s]).created.Some?
                                 && (catalog(items[s]).created.value.isCable <==> s == Center))
    && (Center in items ==> forall f | f in items && f.Face? ::
          catalog(items[Center]).created.value.supportsBuses in catalog(items[f]).created.value.placeableOn)
  }

  /** A grid connection between two nodes. */
  datatype Link = Link(a: NodeId, b: NodeId)

  /** `YesNo`, in the declaration order its ordinals follow: YES, NO, UNDECIDED. */
  datatype YesNo = Yes | No | Undecided

  /** Opaque result of `createShape`: which parts and facades were united, for which query. */
  datatype Shape = Shape(parts: map<Slot, Part>, facades: set<Direction>, forCollision: bool, forItemEntity: bool)

  type Storage = map<Slot, Part>

  function Lookup(st: Storage, s: Slot): (r: Option<Part>)
    ensures r.Some? <==> s in st
    ensures r.Some? ==> r.value == st[s]
  {
    if s in st then Some(st[s]) else None
  }

  // ---------------------------------------------------------------- compatibility

  /** `isPartCompatibleWithCable`: no cable, or the part can be placed on the cable's buses. */
  predicate IsPartCompatibleWithCable(part: Part, cable: Option<Part>)
  {
    cable.None? || cable.value.supportsBuses in part.placeableOn
  }

  /** Every face part can be placed on `cable`. */
  predicate FacesCompatibleWith(st: Storage, cable: Part)
  {
    forall s | s in st && s.Face? :: IsPartCompatibleWithCable(st[s], Some(cable))
  }

  /** The host's compatibility invariant: every face part works with the centre cable, if any. */
  predicate Compatible(st: Storage)
  {
    forall s | s in st && s.Face? :: IsPartCompatibleWithCable(st[s], Lookup(st, Center))
  }

  /** The centre holds only cables, faces hold none, and every part is live exactly when the host is. */
  predicate WellFormed(st: Storage, inWorld: bool)
  {
    && (forall s | s in st :: st[s].isCable <==> s == Center)
    && (forall s | s in st :: st[s].live == inWorld)
  }

  /** The slot a created part goes to: the centre for a cable, otherwise the side given. */
  function Target(p: Part, side: Slot): (r: Slot)
  {
    if p.isCable then Center else side
  }

  /** The pure decision of `canAddPart` for a part item (facades are decided by the caller). */
  predicate CanAttach(st: Storage, stack: Stack, side: Slot)
  {
    && stack.PartItem? && stack.created.Some?
    && var p := stack.created.value;
       if p.isCable then Center !in st && FacesCompatibleWith(st, p)
       else side.Face? && side !in st && IsPartCompatibleWithCable(p, Lookup(st, Center))
  }

  // ---------------------------------------------------------------- grid connections

  function NodesOf(p: Part): (r: set<NodeId>)
  {
    (if p.node.Some? then {p.node.value} else {}) + (if p.externalNode.Some? then {p.externalNode.value} else {})
  }

  /** The links left once `p`'s nodes are destroyed by its `removeFromWorld`. */
  function Detach(links: set<Link>, p: Part): (r: set<Link>)
    ensures r <= links
    ensures forall l | l in links :: l in r <==> (l.a !in NodesOf(p) && l.b !in NodesOf(p))
  {
    set l | l in links && l.a !in NodesOf(p) && l.b !in NodesOf(p)
  }

  /** The node of the face part at direction index x, if there is one. */
  function FaceNode(st: Storage, x: nat): (r: Option<NodeId>)
    requires x < 6
  {
    var s := Face(Directions[x]);
    if s in st && st[s].node.Some? then st[s].node else None
  }

  /** The links a new cable with node `cn` makes to the faces at indices below `n`. */
  function CableLinks(st: Storage, cn: NodeId, n: nat): (r: set<Link>)
    requires n <= 6
  {
    if n == 0 then {}
    else CableLinks(st, cn, n - 1) + (if FaceNode(st, n - 1).Some? then {Link(cn, FaceNode(st, n - 1).value)} else {})
  }

  /** Whether one of the connections to the faces at indices below `n` fails. */
  predicate CableLinkFails(st: Storage, cn: NodeId, connect: (NodeId, NodeId) -> bool, n: nat)
    requires n <= 6
  {
    n > 0 && (CableLinkFails(st, cn, connect, n - 1)
              || (FaceNode(st, n - 1).Some? && !connect(cn, FaceNode(st, n - 1).value)))
  }

  /** The node of the centre cable, if there is a cable with a node. */
  function CableNode(st: Storage): (r: Option<NodeId>)
  {
    if Center in st then st[Center].node else None
  }

  /**
   * The links `addToWorld` makes between the cable node `cn` and the face parts at
   * indices `x` and above whose connection succeeds; a failed connection is ignored.
   */
  function FaceLinksFrom(st: Storage, cn: NodeId, connect: (NodeId, NodeId) -> bool, x: nat): (r: set<Link>)
    decreases 6 - x
  {
    if x >= 6 then {}
    else FaceLinksFrom(st, cn, connect, x + 1)
         + (if FaceNode(st, x).Some? && connect(cn, FaceNode(st, x).value) then {Link(cn, FaceNode(st, x).value)} else {})
  }

  /** The links `addToWorld` makes. */
  function WorldLinks(st: Storage, connect: (NodeId, NodeId) -> bool): (r: set<Link>)
  {
    if CableNode(st).Some? then FaceLinksFrom(st, CableNode(st).value, connect, 0) else {}
  }

  /** The links left once the parts at indices below `n` have left the world. */
  function DetachUpTo(links: set<Link>, st: Storage, n: nat): (r: set<Link>)
    requires n <= 7
  {
    if n == 0 then links
    else if SlotAt(n - 1) in st then Detach(DetachUpTo(links, st, n - 1), st[SlotAt(n - 1)])
    else DetachUpTo(links, st, n - 1)
  }

  /**
   * How `addPart` ends: refused before anything is placed, rolled back after a failed
   * connection, attached, or, for a part that is not a cable and has no side, placed
   * nowhere although the host is refreshed and `true` is returned.
   */
  datatype AddOutcome = Refused | ConnectionFailed | Attached | Unplaced

  /** The outcomes for which `addPart` returns true. */
  predicate AddSucceeds(o: AddOutcome)
  {
    o == Attached || o == Unplaced
  }

  /** What `addPart` does with `stack` on `side`; `connect` says which `GridConnection.create` calls succeed. */
  function Attempt(st: Storage, stack: Stack, side: Slot, connect: (NodeId, NodeId) -> bool): (r: AddOutcome)
  {
    if !stack.PartItem? || stack.created.None? then Refused
    else
      var p := stack.created.value;
      if p.isCable then
        if Center in st || !FacesCompatibleWith(st, p) then Refused
        else if p.node.Some? && CableLinkFails(st, p.node.value, connect, 6) then ConnectionFailed
        else Attached
      else if side.Center? then Unplaced
      else if !IsPartCompatibleWithCable(p, Lookup(st, Center)) then Refused
      else if CableNode(st).Some? && p.node.Some? && !connect(CableNode(st).value, p.node.value) then ConnectionFailed
      else Attached
  }

  /** The links an attached part creates. */
  function NewLinks(st: Storage, p: Part): (r: set<Link>)
  {
    if p.isCable then
      (if p.node.Some? then CableLinks(st, p.node.value, 6) else {})
    else if CableNode(st).Some? && p.node.Some? then {Link(CableNode(st).value, p.node.value)}
    else {}
  }

  /** `addPart` attaches the part the stack creates, and it lands in `s` itself. */
  predicate Installs(st: Storage, stack: Stack, s: Slot, connect: (NodeId, NodeId) -> bool)
  {
    stack.PartItem? && stack.created.Some?
    && Attempt(st, stack, s, connect) == Attached && Target(stack.created.value, s) == s
  }

  // ---------------------------------------------------------------- derived state

  /** The cable's exposed sides: all six, minus the occupied faces, minus the blocked ones. */
  function ExposedSides(st: Storage, blocked: set<Direction>): (r: set<Direction>)
    ensures forall d :: d in r <==> Face(d) !in st && d !in blocked
  {
    AllDirectionsComplete();
    set d | d in AllDirections && Face(d) !in st && d !in blocked
  }

  /** The storage after `updateConnections`. */
  function CableExposed(st: Storage, blocked: set<Direction>): (r: Storage)
  {
    if Center in st then st[Center := st[Center].(exposedOn := ExposedSides(st, blocked))] else st
  }

  /** What `partChanged` does to a face part with an outward node: expose it on its own side only. */
  function ExposeFace(s: Slot, p: Part): (r: Part)
  {
    if s.Face? && p.externalNode.Some? then p.(exposedOn := {s.dir}) else p
  }

  function FacesExposed(st: Storage): (r: Storage)
  {
    map s | s in st :: ExposeFace(s, st[s])
  }

  /** The storage after `updateConnections` and `partChanged`. */
  function Refreshed(st: Storage, blocked: set<Direction>): (r: Storage)
  {
    FacesExposed(CableExposed(st, blocked))
  }

  /** `updateDynamicRender`: some face part needs dynamic rendering. */
  predicate AnyDynamicRender(st: Storage)
  {
    exists s | s in st && s.Face? :: st[s].dynamicRender
  }

  /** The storage with every part's `live` flag set to `live`. */
  function WithLive(st: Storage, live: bool): (r: Storage)
  {
    map s | s in st :: st[s].(live := live)
  }

  /** The storage with the parts at indices `x` and above live (the `addToWorld` loop counts down). */
  function LiveFrom(st: Storage, x: nat): (r: Storage)
    ensures r.Keys == st.Keys
    ensures forall s | s in r :: r[s].node == st[s].node && r[s].externalNode == st[s].externalNode
  {
    map s | s in st :: if SlotIndex(s) >= x then st[s].(live := true) else st[s]
  }

  /** The storage with the parts at indices below `x` out of the world (the `removeFromWorld` loop counts up). */
  function OfflineBelow(st: Storage, x: nat): (r: Storage)
  {
    map s | s in st :: if SlotIndex(s) < x then st[s].(live := false) else st[s]
  }

  /** The storage after a part was placed: the created part, live when the host is, then refreshed. */
  function AfterAdd(st: Storage, stack: Stack, side: Slot, connect: (NodeId, NodeId) -> bool,
                    inWorld: bool, blocked: set<Direction>): (r: Storage)
  {
    match Attempt(st, stack, side, connect)
    case Refused => st
    case Unplaced => Refreshed(st, blocked)
    case ConnectionFailed => st - {Target(stack.created.value, side)}
    case Attached =>
      var p := stack.created.value;
      Refreshed(st[Target(p, side) := p.(live := inWorld)], blocked)
  }

  function LinksAfterAdd(st: Storage, links: set<Link>, stack: Stack, side: Slot,
                         connect: (NodeId, NodeId) -> bool): (r: set<Link>)
  {
    match Attempt(st, stack, side, connect)
    case Refused => links
    case Unplaced => links
    case ConnectionFailed => Detach(links, stack.created.value)
    case Attached => links + NewLinks(st, stack.created.value)
  }

  /** `createShape(forCollision, forItemEntity)`: facades are included for collisions or when facades render opaque. */
  function CreateShape(st: Storage, facades: set<Direction>, forCollision: bool, forItemEntity: bool,
                       opaqueFacades: bool): (r: Shape)
  {
    Shape(st, if opaqueFacades || forCollision then facades else {}, forCollision, forItemEntity)
  }

  // ---------------------------------------------------------------- contents

  /** What the stream and the saved document carry for a part: its item id and its own state. */
  datatype Entry = Entry(item: ItemId, data: Payload)

  function EntryOf(p: Part): (r: Entry)
  {
    Entry(p.item, p.data)
  }

  function Contents(st: Storage): (r: map<Slot, Entry>)
  {
    map s | s in st :: EntryOf(st[s])
  }

  // ---------------------------------------------------------------- network stream

  /** One item of the synchronisation stream: the occupancy byte, a var-int item id or a part's payload. */
  datatype Token = ByteToken(b: bv8) | VarIntToken(n: int) | PartData(data: Payload)

  function Bit(x: nat): (r: bv8)
    requires x < 7
  {
    (1 as bv8) << x
  }

  predicate HasBit(m: bv8, x: nat)
    requires x < 7
  {
    m & Bit(x) == Bit(x)
  }

  /** The occupancy bits of the slots at indices below `n`. */
  function MaskUpTo(st: Storage, n: nat): (r: bv8)
    requires n <= 7
  {
    if n == 0 then 0
    else MaskUpTo(st, n - 1) | (if SlotAt(n - 1) in st then Bit(n - 1) else 0)
  }

  /** The leading byte of `writeToStream`. */
  function Mask(st: Storage): (r: bv8)
  {
    MaskUpTo(st, 7)
  }

  /** The per-part tokens for the slots at indices `x` and above. */
  function EncodeEntries(st: Storage, x: nat): (r: seq<Token>)
    requires x <= 7
    decreases 7 - x
  {
    if x == 7 then []
    else (if SlotAt(x) in st then [VarIntToken(st[SlotAt(x)].item), PartData(st[SlotAt(x)].data)] else [])
         + EncodeEntries(st, x + 1)
  }

  /** The tokens of `writeToStream` (without the trailing facade sub-stream). */
  function EncodeStream(st: Storage): (r: seq<Token>)
  {
    [ByteToken(Mask(st))] + EncodeEntries(st, 0)
  }

  /** Reading the entries of the slots at indices `x` and above, whose bits are set in `m`, from position `pos`. */
  function ParseEntries(t: seq<Token>, pos: nat, m: bv8, x: nat): (r: Option<map<Slot, Entry>>)
    requires x <= 7
    decreases 7 - x
  {
    if x == 7 then Some(map[])
    else if !HasBit(m, x) then ParseEntries(t, pos, m, x + 1)
    else if pos + 1 < |t| && t[pos].VarIntToken? && t[pos + 1].PartData? then
      match ParseEntries(t, pos + 2, m, x + 1)
      case None => None
      case Some(rest) => Some(rest[SlotAt(x) := Entry(t[pos].n, t[pos + 1].data)])
    else None
  }

  /** The slot entries a well-formed stream describes, or `None` where the reader runs out of tokens. */
  function DecodeStream(t: seq<Token>): (r: Option<map<Slot, Entry>>)
  {
    if |t| > 0 && t[0].ByteToken? then ParseEntries(t, 1, t[0].b, 0) else None
  }

  function Join(r: Option<map<Slot, Entry>>, acc: map<Slot, Entry>): (res: Option<map<Slot, Entry>>)
  {
    match r
    case None => None
    case Some(m) => Some(m + acc)
  }

  /** The item ids of a set of entries. */
  function ItemsOf(m: map<Slot, Entry>): (r: map<Slot, ItemId>)
    ensures r.Keys == m.Keys && forall s | s in r :: r[s] == m[s].item
  {
    map s | s in m :: m[s].item
  }

  /**
   * `readFromStream` can read slot `s` at position `pos`: the item id and the payload are
   * there, and either the slot keeps a part of that item, or adding a part of that item to
   * the emptied slot puts it in that slot.
   */
  predicate SlotReadable(st: Storage, s: Slot, t: seq<Token>, pos: nat, catalog: Catalog, connect: (NodeId, NodeId) -> bool)
  {
    && pos + 1 < |t| && t[pos].VarIntToken? && t[pos + 1].PartData?
    && ((s in st && st[s].item == t[pos].n) || Installs(st - {s}, catalog(t[pos].n), s, connect))
  }

  // ---------------------------------------------------------------- saved document

  /** A value in the saved document: an int, or a compound holding a saved stack and/or a part's state. */
  datatype Tag = IntTag(n: int) | CompoundTag(stack: Option<ItemId>, payload: Payload) | OtherTag

  type Document = map<string, Tag>

  const RedstoneKey: string := "hasRedstone"

  const AllSlots: set<Slot> := {Face(Down), Face(Up), Face(North), Face(South), Face(West), Face(East), Center}

  /** `"center"` or the direction's enum name. */
  function SlotName(s: Slot): (r: string)
  {
    match s
    case Center => "center"
    case Face(Down) => "DOWN"
    case Face(Up) => "UP"
    case Face(North) => "NORTH"
    case Face(South) => "SOUTH"
    case Face(West) => "WEST"
    case Face(East) => "EAST"
  }

  function DefKey(s: Slot): (r: string) { "def:" + SlotName(s) }

  function ExtraKey(s: Slot): (r: string) { "extra:" + SlotName(s) }

  function Ordinal(y: YesNo): (r: int)
  {
    match y
    case Yes => 0
    case No => 1
    case Undecided => 2
  }

  /** `YesNo.values()[n]`, or `None` where that index is out of bounds. */
  function YesNoAt(n: int): (r: Option<YesNo>)
    ensures r.Some? <==> 0 <= n < 3
    ensures r.Some? ==> Ordinal(r.value) == n
  {
    if n == 0 then Some(Yes) else if n == 1 then Some(No) else if n == 2 then Some(Undecided) else None
  }

  /** `getInt`: the int stored under a key, or 0 for any other tag. */
  function IntOf(t: Tag): (r: int)
  {
    if t.IntTag? then t.n else 0
  }

  /** Both keys of a slot hold compounds (`contains(key, TAG_COMPOUND)`). */
  predicate Stored(doc: Document, s: Slot)
  {
    DefKey(s) in doc && doc[DefKey(s)].CompoundTag? && ExtraKey(s) in doc && doc[ExtraKey(s)].CompoundTag?
  }

  /** `readFromNBT` replaces slot `s`: both compounds are there, the saved stack is not empty, and the slot holds no part of that item. */
  predicate Replacing(st: Storage, doc: Document, s: Slot)
  {
    Stored(doc, s) && doc[DefKey(s)].stack.Some? && !(s in st && st[s].item == doc[DefKey(s)].stack.value)
  }

  /** The items of the slots whose saved stack `readFromNBT` would install. */
  function SavedItems(doc: Document): (r: map<Slot, ItemId>)
  {
    map s | s in AllSlots && Stored(doc, s) && doc[DefKey(s)].stack.Some? :: doc[DefKey(s)].stack.value
  }

  /** The compound `getItemStack(WORLD).save` writes: the part's item. */
  function DefTag(p: Part): (r: Tag) { CompoundTag(Some(p.item), []) }

  /** The compound the part's own `writeToNBT` fills: its state. */
  function ExtraTag(p: Part): (r: Tag) { CompoundTag(None, p.data) }

  /** The document after the entries of the slots at indices `x` and above were written into `doc`. */
  function SaveSlots(doc: Document, st: Storage, x: nat): (r: Document)
    requires x <= 7
    decreases 7 - x
  {
    if x == 7 then doc
    else
      var s := SlotAt(x);
      SaveSlots(if s in st then doc[DefKey(s) := DefTag(st[s])][ExtraKey(s) := ExtraTag(st[s])] else doc, st, x + 1)
  }

  /** What `writeToNBT` makes of `doc`: the redstone ordinal, then the two compounds of every part. */
  function SavedDocument(doc: Document, st: Storage, redstone: YesNo): (r: Document)
  {
    SaveSlots(doc[RedstoneKey := IntTag(Ordinal(redstone))], st, 0)
  }

  /**
   * What `readFromNBT` promises about slot `s`, which held `before` and now holds `after`
   * (`warned` says whether it logged the invalid-part warning for the slot): without both
   * compounds the slot is cleared; with an empty saved stack it is left alone; otherwise
   * it holds a part with the saved state, of the saved item when `items` holds, or it is
   * empty and the slot was warned about.
   */
  ghost predicate SlotLoaded(before: Storage, after: Storage, doc: Document, s: Slot, warned: bool, items: bool)
  {
    && (!Stored(doc, s) ==> s !in after && !warned)
    && (Stored(doc, s) && doc[DefKey(s)].stack.None? ==>
          (s in after <==> s in before) && (s in after ==> EntryOf(after[s]) == EntryOf(before[s])) && !warned)
    && (Stored(doc, s) && doc[DefKey(s)].stack.Some? ==>
          (warned <==> s !in after)
          && (s in after ==> after[s].data == doc[ExtraKey(s)].payload)
          && (s in after && items ==> after[s].item == doc[DefKey(s)].stack.value))
  }
}
