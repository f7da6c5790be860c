/** Turning a flattened tree back into nodes (src/base/device_tree.c:34-69, 153-314).

    The C code follows offsets without checking them against the end of the blob; here such a
    read has the outcome Undefined. */
module FdtRead {
  import opened Common
  import opened FdtFormat

  datatype Read<+T> = Undefined | Absent | Got(size: nat, value: T)

  /** The C string at off. */
  function StringAt(b: Bytes, off: nat): Option<Bytes>
    decreases |b| - off
  {
    if off >= |b| then None
    else if b[off] == 0 then Some([])
    else match StringAt(b, off + 1)
      case None => None
      case Some(s) => Some([b[off]] + s)
  }

  /** fdt_next_property with prop == NULL: only the number of bytes. */
  function PropertySize(b: Bytes, off: nat): Read<()> {
    if off + 4 > |b| then Undefined
    else if U32(b, off) != TOKEN_PROPERTY then Absent
    else if off + 12 > |b| then Undefined
    else Got(12 + Pad4(U32(b, off + 4)), ())
  }

  /** fdt_next_property. */
  function NextProperty(b: Bytes, off: nat): Read<Property> {
    match PropertySize(b, off)
    case Undefined => Undefined
    case Absent => Absent
    case Got(size, _) =>
      var length := U32(b, off + 4);
      if |b| < HEADER_SIZE || off + 12 + length > |b| then Undefined
      else match StringAt(b, (U32(b, off + 8) + U32(b, STRINGS_OFFSET)) % 0x1_0000_0000)
        case None => Undefined
        case Some(name) => Got(size, Property(name, b[off + 12..off + 12 + length]))
  }

  function NodeName(b: Bytes, off: nat): Read<Bytes> {
    if off + 4 > |b| then Undefined
    else if U32(b, off) != TOKEN_BEGIN_NODE then Absent
    else match StringAt(b, off + 4)
      case None => Undefined
      case Some(name) => Got(Pad4(|name| + 1) + 4, name)
  }

  // ----- fdt_skip_node -----

  // The offset behind the properties that start at off.
  function SkipProperties(b: Bytes, off: nat): (r: Option<nat>)
    ensures r.Some? ==> r.value >= off
    decreases |b| - off
  {
    match PropertySize(b, off)
    case Undefined => None
    case Absent => Some(off)
    case Got(size, _) => SkipProperties(b, off + size)
  }

  function SkipNode(b: Bytes, off: nat): (r: Read<()>)
    ensures r.Got? ==> r.size > 0
    decreases |b| - off, 0
  {
    match NodeName(b, off)
    case Undefined => Undefined
    case Absent => Absent
    case Got(size, _) =>
      match SkipProperties(b, off + size)
      case None => Undefined
      case Some(kids) =>
        match SkipChildren(b, kids)
        case None => Undefined
        case Some(end) => Got(end - off + 4, ())
  }

  function SkipChildren(b: Bytes, off: nat): (r: Option<nat>)
    ensures r.Some? ==> r.value >= off
    decreases |b| - off, 1
  {
    match SkipNode(b, off)
    case Undefined => None
    case Absent => Some(off)
    case Got(size, _) => SkipChildren(b, off + size)
  }

  // ----- fdt_unflatten_node -----

  datatype Properties = Properties(list: seq<Property>, end: nat, phandle: nat, maxPhandle: nat)

  /** The property loop: `done` holds the properties read so far, phandle and maxPhandle are
      node->phandle and tree->max_phandle.  A phandle is the word at the start of the data,
      whatever the size of the data. */
  function ReadProperties(b: Bytes, off: nat, done: seq<Property>, phandle: nat,
                          maxPhandle: nat): (r: Option<Properties>)
    ensures r.Some? ==> r.value.end >= off
    decreases |b| - off
  {
    match NextProperty(b, off)
    case Undefined => None
    case Absent => Some(Properties(done, off, phandle, maxPhandle))
    case Got(size, p) =>
      if IsPhandle(p) then
        if off + 16 > |b| then None
        else
          var ph := U32(b, off + 12);
          ReadProperties(b, off + size, done + [p], ph, Max(maxPhandle, ph))
      else ReadProperties(b, off + size, done + [p], phandle, maxPhandle)
  }

  datatype NodeRead = NoNode | BadNode | ANode(size: nat, node: Node, maxPhandle: nat)

  datatype Children = Children(list: seq<Node>, end: nat, maxPhandle: nat)

  /** fdt_unflatten_node. */
  function UnflattenNode(b: Bytes, off: nat, maxPhandle: nat): (r: NodeRead)
    ensures r.ANode? ==> r.size > 0
    decreases |b| - off, 0
  {
    match NodeName(b, off)
    case Undefined => BadNode
    case Absent => NoNode
    case Got(size, name) =>
      match ReadProperties(b, off + size, [], 0, maxPhandle)
      case None => BadNode
      case Some(ps) =>
        match UnflattenChildren(b, ps.end, [], ps.maxPhandle)
        case None => BadNode
        case Some(kids) =>
          ANode(kids.end - off + 4, Node(name, ps.phandle, ps.list, kids.list), kids.maxPhandle)
  }

  function UnflattenChildren(b: Bytes, off: nat, done: seq<Node>, maxPhandle: nat): (r: Option<Children>)
    ensures r.Some? ==> r.value.end >= off
    decreases |b| - off, 1
  {
    match UnflattenNode(b, off, maxPhandle)
    case BadNode => None
    case NoNode => Some(Children(done, off, maxPhandle))
    case ANode(size, n, m) => UnflattenChildren(b, off + size, done + [n], m)
  }

  // ----- fdt_unflatten -----

  function ReadMap(b: Bytes, off: nat, done: seq<MapEntry>): Option<seq<MapEntry>>
    decreases |b| - off
  {
    if off + 16 > |b| then None
    else if U64(b, off + 8) == 0 then Some(done)
    else ReadMap(b, off + 16, done + [MapEntry(U64(b, off), U64(b, off + 8))])
  }

  datatype TreeRead = BadBlob | Rejected | Rootless | ATree(tree: DeviceTree)

  function Min(a: nat, b: nat): nat { if a < b then a else b }

  /** Everything up to the first block counts as the header. */
  function HeaderLength(b: Bytes): nat
    requires |b| >= HEADER_SIZE
  {
    Min(Min(U32(b, STRUCTURE_OFFSET), U32(b, STRINGS_OFFSET)), U32(b, RESERVE_MAP_OFFSET))
  }

  function Unflatten(b: Bytes): TreeRead {
    if |b| < HEADER_SIZE then BadBlob
    else if U32(b, MAGIC) != FDT_MAGIC || U32(b, LAST_COMP_VERSION) > FDT_SUPPORTED_VERSION then Rejected
    else if HeaderLength(b) > |b| then BadBlob
    else match ReadMap(b, U32(b, RESERVE_MAP_OFFSET), [])
      case None => BadBlob
      case Some(m) =>
        match UnflattenNode(b, U32(b, STRUCTURE_OFFSET), 0)
        case BadNode => BadBlob
        case NoNode => Rootless
        case ANode(_, n, maxPhandle) => ATree(DeviceTree(b[..HeaderLength(b)], maxPhandle, m, n))
  }

  // ----- the loops of the C code -----

  method FdtSkipNode(b: Bytes, start: nat) returns (r: Read<()>)
    ensures r == SkipNode(b, start)
    decreases |b| - start, 0
  {
    hide NodeName, SkipProperties, PropertySize, SkipChildren;
    NamePlace(b, start);
    var name := NodeName(b, start);
    if !name.Got? {
      return if name.Absent? then Absent else Undefined;
    }
    var off := start + name.size;
    var size := PropertySize(b, off);
    while size.Got?
      invariant off >= start + name.size && size == PropertySize(b, off)
      invariant SkipProperties(b, off) == SkipProperties(b, start + name.size)
      decreases |b| - off
    {
      SkipPropertyStep(b, off);
      off := off + size.size;
      size := PropertySize(b, off);
    }
    SkipPropertyStep(b, off);
    if size.Undefined? {
      return Undefined;
    }
    var end := FdtSkipChildren(b, off);
    return if end.Some? then Got(end.value - start + 4, ()) else Undefined;
  }

  /** Its second loop. */
  method FdtSkipChildren(b: Bytes, start: nat) returns (r: Option<nat>)
    ensures r == SkipChildren(b, start)
    decreases |b| - start, 1
  {
    hide SkipNode, SkipChildren;
    var off := start;
    var child := FdtSkipNode(b, off);
    while child.Got?
      invariant off >= start && child == SkipNode(b, off)
      invariant SkipChildren(b, off) == SkipChildren(b, start)
      decreases |b| - off
    {
      SkipStep(b, off);
      off := off + child.size;
      child := FdtSkipNode(b, off);
    }
    SkipStep(b, off);
    return if child.Absent? then Some(off) else None;
  }

  method FdtUnflattenNode(b: Bytes, start: nat, maxPhandle: nat) returns (r: NodeRead)
    ensures r == UnflattenNode(b, start, maxPhandle)
    decreases |b| - start, 0
  {
    hide NodeName, ReadProperties, UnflattenChildren;
    NamePlace(b, start);
    var name := NodeName(b, start);
    if !name.Got? {
      return if name.Absent? then NoNode else BadNode;
    }
    var ps := FdtUnflattenProperties(b, start + name.size, maxPhandle);
    if ps.None? {
      return BadNode;
    }
    var kids := FdtUnflattenChildren(b, ps.value.end, ps.value.maxPhandle);
    if kids.None? {
      return BadNode;
    }
    return ANode(kids.value.end - start + 4,
                 Node(name.value, ps.value.phandle, ps.value.list, kids.value.list), kids.value.maxPhandle);
  }

  /** One round of the property loop. */
  lemma ReadStep(b: Bytes, off: nat, done: seq<Property>, phandle: nat, m: nat)
    ensures var p := NextProperty(b, off); var r := ReadProperties(b, off, done, phandle, m);
      && (p.Undefined? ==> r == None)
      && (p.Absent? ==> r == Some(Properties(done, off, phandle, m)))
      && (p.Got? ==> off < |b| && p.size > 0)
      && (p.Got? && !IsPhandle(p.value) ==> r == ReadProperties(b, off + p.size, done + [p.value], phandle, m))
      && (p.Got? && IsPhandle(p.value) && off + 16 > |b| ==> r == None)
      && (p.Got? && IsPhandle(p.value) && off + 16 <= |b| ==>
            var ph := U32(b, off + 12); r == ReadProperties(b, off + p.size, done + [p.value], ph, Max(m, ph)))
  {
    hide StringAt, U32, IsPhandle;
  }

  /** One round of the child loop. */
  lemma ChildStep(b: Bytes, off: nat, done: seq<Node>, m: nat)
    ensures var c := UnflattenNode(b, off, m); var r := UnflattenChildren(b, off, done, m);
      && (c.BadNode? ==> r == None)
      && (c.NoNode? ==> r == Some(Children(done, off, m)))
      && (c.ANode? ==> off < |b| && c.size > 0)
      && (c.ANode? ==> r == UnflattenChildren(b, off + c.size, done + [c.node], c.maxPhandle))
  {
    hide StringAt, U32, ReadProperties;
  }

  lemma SkipStep(b: Bytes, off: nat)
    ensures var c := SkipNode(b, off); var r := SkipChildren(b, off);
      && (c.Undefined? ==> r == None)
      && (c.Absent? ==> r == Some(off))
      && (c.Got? ==> off < |b| && c.size > 0 && r == SkipChildren(b, off + c.size))
  {
    hide StringAt, U32, SkipProperties;
  }

  lemma SkipPropertyStep(b: Bytes, off: nat)
    ensures var p := PropertySize(b, off); var r := SkipProperties(b, off);
      && (p.Undefined? ==> r == None)
      && (p.Absent? ==> r == Some(off))
      && (p.Got? ==> off < |b| && p.size > 0 && r == SkipProperties(b, off + p.size))
  {
    hide U32;
  }

  lemma NamePlace(b: Bytes, off: nat)
    ensures NodeName(b, off).Got? ==> off < |b| && NodeName(b, off).size > 0
  {
    hide StringAt, U32;
  }

  /** Its first loop. */
  method FdtUnflattenProperties(b: Bytes, start: nat, maxPhandle: nat) returns (r: Option<Properties>)
    ensures r == ReadProperties(b, start, [], 0, maxPhandle)
  {
    hide ReadProperties, NextProperty, IsPhandle, U32;
    var off, m, phandle, properties := start, maxPhandle, 0, [];
    var p := NextProperty(b, off);
    while p.Got?
      invariant off >= start && p == NextProperty(b, off)
      invariant ReadProperties(b, off, properties, phandle, m) == ReadProperties(b, start, [], 0, maxPhandle)
      decreases |b| - off
    {
      ReadStep(b, off, properties, phandle, m);
      if IsPhandle(p.value) {
        if off + 16 > |b| {
          return None;
        }
        phandle := U32(b, off + 12);
        if phandle > m {
          m := phandle;
        }
      }
      properties := properties + [p.value];
      off := off + p.size;
      p := NextProperty(b, off);
    }
    ReadStep(b, off, properties, phandle, m);
    return if p.Absent? then Some(Properties(properties, off, phandle, m)) else None;
  }

  /** Its second loop. */
  method FdtUnflattenChildren(b: Bytes, start: nat, maxPhandle: nat) returns (r: Option<Children>)
    ensures r == UnflattenChildren(b, start, [], maxPhandle)
    decreases |b| - start, 1
  {
    hide UnflattenNode, UnflattenChildren;
    var off, m, children := start, maxPhandle, [];
    ChildStep(b, off, children, m);
    var child := FdtUnflattenNode(b, off, m);
    while child.ANode?
      invariant off >= start && child == UnflattenNode(b, off, m)
      invariant UnflattenChildren(b, off, children, m) == UnflattenChildren(b, start, [], maxPhandle)
      decreases |b| - off
    {
      ChildStep(b, off, children, m);
      children := children + [child.node];
      m := child.maxPhandle;
      off := off + child.size;
      child := FdtUnflattenNode(b, off, m);
    }
    ChildStep(b, off, children, m);
    return if child.NoNode? then Some(Children(children, off, m)) else None;
  }

  method FdtUnflatten(b: Bytes) returns (r: TreeRead)
    ensures r == Unflatten(b)
  {
    if |b| < HEADER_SIZE {
      return BadBlob;
    }
    if U32(b, MAGIC) != FDT_MAGIC || U32(b, LAST_COMP_VERSION) > FDT_SUPPORTED_VERSION {
      return Rejected;
    }
    var headerSize := HeaderLength(b);
    if headerSize > |b| {
      return BadBlob;
    }
    var off := U32(b, RESERVE_MAP_OFFSET);
    var entries := [];
    while off + 16 <= |b| && U64(b, off + 8) != 0
      invariant off >= U32(b, RESERVE_MAP_OFFSET)
      invariant ReadMap(b, off, entries) == ReadMap(b, U32(b, RESERVE_MAP_OFFSET), [])
      decreases |b| - off
    {
      entries := entries + [MapEntry(U64(b, off), U64(b, off + 8))];
      off := off + 16;
    }
    if off + 16 > |b| {
      return BadBlob;
    }
    var root := FdtUnflattenNode(b, U32(b, STRUCTURE_OFFSET), 0);
    match root
    case BadNode => return BadBlob;
    case NoNode => return Rootless;
    case ANode(_, n, m) => return ATree(DeviceTree(b[..headerSize], m, entries, n));
  }
}
