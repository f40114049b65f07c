/** Flattened device trees: the structure block as a tree, its encoding, and what a search of it means.
    (Sections 5.4 and 5.6 of the Devicetree Specification v0.4.) */
module DeviceTree {
  import opened Options

  newtype byte = x: int | 0 <= x < 256

  type Bytes = seq<byte>

  /** A node with the NOP tokens before it, its name, the padding after the name's NUL, and its body.
      A body is the list of the node's properties and subnodes, each after any number of NOPs. */
  datatype Node = Node(nops: nat, name: Bytes, pad: Bytes, body: Body)

  datatype Body =
    | End(nops: nat)
    | Property(nops: nat, nameOffset: nat, value: Bytes, pad: Bytes, rest: Body)
    | Child(node: Node, rest: Body)

  const BEGIN_NODE: Bytes := [0, 0, 0, 1]
  const END_NODE: Bytes := [0, 0, 0, 2]
  const PROP: Bytes := [0, 0, 0, 3]
  const NOP: Bytes := [0, 0, 0, 4]
  const END: Bytes := [0, 0, 0, 9]

  const U32_LIMIT: nat := 0x1_0000_0000

  function EncodeU32(n: nat): (b: Bytes)
    requires n < U32_LIMIT
    ensures |b| == 4
  {
    [(n / 0x100_0000) as byte, ((n / 0x1_0000) % 0x100) as byte, ((n / 0x100) % 0x100) as byte, (n % 0x100) as byte]
  }

  function DecodeU32(b: Bytes): nat
    requires |b| == 4
  {
    b[0] as nat * 0x100_0000 + b[1] as nat * 0x1_0000 + b[2] as nat * 0x100 + b[3] as nat
  }

  lemma DecodeEncodeU32(n: nat)
    requires n < U32_LIMIT
    ensures DecodeU32(EncodeU32(n)) == n
  {
    var q := n / 0x100;
    var r := n / 0x1_0000;
    assert q / 0x100 == r && r / 0x100 == n / 0x100_0000;
    assert n == q * 0x100 + n % 0x100 && q == r * 0x100 + q % 0x100 && r == (r / 0x100) * 0x100 + r % 0x100;
  }

  function Nops(k: nat): (b: Bytes)
    ensures |b| == 4 * k && |b| % 4 == 0
  {
    if k == 0 then [] else NOP + Nops(k - 1)
  }

  // ------------------------------------------------------------------ encoding

  ghost predicate PadsTo4(length: nat, pad: Bytes) {
    |pad| < 4 && (length + |pad|) % 4 == 0
  }

  ghost predicate NoNul(s: Bytes) { forall i :: 0 <= i < |s| ==> s[i] != 0 }

  lemma MoreWords(k: nat, bytes: nat)
    requires bytes % 4 == 0
    ensures (4 * k + bytes) % 4 == 0
  {
  }

  ghost function EncodeHeader(n: Node): (e: Bytes)
    requires PadsTo4(|n.name| + 1, n.pad)
    ensures |e| == 4 * n.nops + 4 + |n.name| + 1 + |n.pad| && |e| % 4 == 0 && |e| >= 8
  {
    MoreWords(n.nops + 1, |n.name| + 1 + |n.pad|);
    Nops(n.nops) + (BEGIN_NODE + (n.name + [0] + n.pad))
  }

  ghost function EncodeProperty(nops: nat, nameOffset: nat, value: Bytes, pad: Bytes): (e: Bytes)
    requires |value| < U32_LIMIT && nameOffset < U32_LIMIT && PadsTo4(|value|, pad)
    ensures |e| == 4 * nops + 12 + |value| + |pad| && |e| % 4 == 0
  {
    MoreWords(nops + 3, |value| + |pad|);
    Nops(nops) + (PROP + EncodeU32(|value|) + EncodeU32(nameOffset) + (value + pad))
  }

  ghost predicate WellFormed(n: Node) {
    NoNul(n.name) && PadsTo4(|n.name| + 1, n.pad) && WellFormedBody(n.body)
  }

  ghost predicate WellFormedBody(b: Body) {
    match b
    case End(_) => true
    case Property(_, offset, value, pad, rest) =>
      offset < U32_LIMIT && |value| < U32_LIMIT && PadsTo4(|value|, pad) && WellFormedBody(rest)
    case Child(node, rest) => WellFormed(node) && WellFormedBody(rest)
  }

  ghost function Encode(n: Node): (e: Bytes)
    requires WellFormed(n)
    ensures |e| % 4 == 0 && |e| >= 12
  {
    Join(EncodeHeader(n), EncodeBody(n.body))
  }

  ghost function EncodeBody(b: Body): (e: Bytes)
    requires WellFormedBody(b)
    ensures |e| % 4 == 0 && |e| >= 4
  {
    match b
    case End(nops) => Join(Nops(nops), END_NODE)
    case Property(nops, offset, value, pad, rest) => Join(EncodeProperty(nops, offset, value, pad), EncodeBody(rest))
    case Child(node, rest) => Join(Encode(node), EncodeBody(rest))
  }

  /** Two pieces of whole 32-bit words, one after the other. */
  ghost function Join(s: Bytes, t: Bytes): (e: Bytes)
    requires |s| % 4 == 0 && |t| % 4 == 0
    ensures e == s + t && |e| % 4 == 0
  {
    s + t
  }

  // ------------------------------------------------------------------ a blob in memory

  /** Memory with a device tree blob in it; addresses are indices. */
  datatype Blob = Blob(bytes: Bytes, structOffset: nat, structSize: nat, stringsOffset: nat, stringsSize: nat) {
    function StructEnd(): nat { structOffset + structSize }
  }

  /** `s` stands in memory at address `p`. */
  ghost predicate At(m: Bytes, p: nat, s: Bytes) {
    p + |s| <= |m| && m[p..p + |s|] == s
  }

  lemma AtSplit(m: Bytes, p: nat, s: Bytes, t: Bytes)
    requires At(m, p, s + t)
    ensures At(m, p, s) && At(m, p + |s|, t)
  {
    assert m[p..p + |s|] == m[p..p + |s + t|][..|s|];
    assert m[p + |s|..p + |s| + |t|] == m[p..p + |s + t|][|s|..];
  }

  /** The name at an offset of the strings block: the bytes up to its NUL. */
  ghost predicate NamedAt(d: Blob, offset: nat, name: Bytes) {
    && offset < d.stringsSize && NoNul(name)
    && At(d.bytes, d.stringsOffset + offset, name + [0])
  }

  const ADDRESS_CELLS: Bytes := [35, 97, 100, 100, 114, 101, 115, 115, 45, 99, 101, 108, 108, 115]
  const SIZE_CELLS: Bytes := [35, 115, 105, 122, 101, 45, 99, 101, 108, 108, 115]
  const REG: Bytes := [114, 101, 103]
  const COMPATIBLE: Bytes := [99, 111, 109, 112, 97, 116, 105, 98, 108, 101]

  /** Names of the properties of a tree, by offset. */
  type Names = map<nat, Bytes>

  /** Every property name is in the strings block, and cell counts are one 32-bit word. */
  ghost predicate Named(d: Blob, names: Names, b: Body) {
    match b
    case End(_) => true
    case Property(_, offset, value, _, rest) =>
      && offset in names && NamedAt(d, offset, names[offset])
      && (names[offset] == ADDRESS_CELLS || names[offset] == SIZE_CELLS ==> |value| == 4)
      && Named(d, names, rest)
    case Child(node, rest) => Named(d, names, node.body) && Named(d, names, rest)
  }

  // ------------------------------------------------------------------ what the searches mean

  datatype Cells = Cells(address: nat, size: nat)

  const DEFAULT_CELLS := Cells(2, 1)

  datatype DtbNode = DtbNode(address: nat, cells: Cells)

  /** `check_address_and_size_cells` on a property with this name and value. */
  ghost function UpdateCells(name: Bytes, value: Bytes, cells: Cells): Cells {
    if name == ADDRESS_CELLS && |value| == 4 then cells.(address := DecodeU32(value))
    else if name == SIZE_CELLS && |value| == 4 then cells.(size := DecodeU32(value))
    else cells
  }

  ghost function CellsAfter(names: Names, offset: nat, value: Bytes, cells: Cells): Cells {
    if offset in names then UpdateCells(names[offset], value, cells) else cells
  }

  /** A query names a node by its whole name or by the part before the unit address. */
  ghost predicate Matches(name: Bytes, query: Bytes) {
    query <= name && (|name| == |query| || name[|query|] == 64)
  }

  /** A node of the tree in document order: its name, its body, where the body starts, and the cell
      counts it inherits. */
  datatype Entry = Entry(name: Bytes, body: Body, node: DtbNode)

  ghost function Preorder(names: Names, n: Node, p: nat, cells: Cells): seq<Entry>
    requires WellFormed(n)
  {
    var q := p + |EncodeHeader(n)|;
    [Entry(n.name, n.body, DtbNode(q, cells))] + PreorderBody(names, n.body, q, cells)
  }

  ghost function PreorderBody(names: Names, b: Body, p: nat, cells: Cells): seq<Entry>
    requires WellFormedBody(b)
  {
    match b
    case End(_) => []
    case Property(nops, offset, value, pad, rest) =>
      PreorderBody(names, rest, p + |EncodeProperty(nops, offset, value, pad)|, CellsAfter(names, offset, value, cells))
    case Child(node, rest) =>
      Preorder(names, node, p, cells) + PreorderBody(names, rest, p + |Encode(node)|, cells)
  }

  ghost function FirstNamed(es: seq<Entry>, query: Bytes): Option<DtbNode> {
    if es == [] then None
    else if Matches(es[0].name, query) then Some(es[0].node)
    else FirstNamed(es[1..], query)
  }

  lemma {:induction false} FirstNamedConcat(xs: seq<Entry>, ys: seq<Entry>, query: Bytes)
    ensures FirstNamed(xs + ys, query) ==
      if FirstNamed(xs, query).Some? then FirstNamed(xs, query) else FirstNamed(ys, query)
  {
    if xs == [] {
      assert xs + ys == ys;
    } else {
      assert (xs + ys)[1..] == xs[1..] + ys;
      FirstNamedConcat(xs[1..], ys, query);
    }
  }

  // ------------------------------------------------------------------ lists of compatible strings

  /** Position of the first NUL at or after `p`, or the end. */
  function NulFrom(v: Bytes, p: nat): (e: nat)
    requires p <= |v|
    ensures p <= e <= |v| && (e < |v| ==> v[e] == 0) && forall i :: p <= i < e ==> v[i] != 0
    decreases |v| - p
  {
    if p == |v| || v[p] == 0 then p else NulFrom(v, p + 1)
  }

  /** The NUL-terminated strings of a property value from position `p` on. */
  function MembersFrom(v: Bytes, p: nat): seq<Bytes>
    requires p <= |v|
    decreases |v| - p
  {
    var e := NulFrom(v, p);
    if e == |v| then [] else [v[p..e]] + MembersFrom(v, e + 1)
  }

  function Members(v: Bytes): seq<Bytes> { MembersFrom(v, 0) }

  predicate Terminated(v: Bytes) { v != [] ==> v[|v| - 1] == 0 }

  // ------------------------------------------------------------------ search by compatible string

  /** What a body's `compatible` properties, its own and those of the nodes below it, offer a search, in
      document order: the list of strings, the start of the body they belong to, and the cell counts in
      force there. */
  datatype Offer = Offer(value: Bytes, node: DtbNode)

  ghost function Offers(names: Names, n: Node, p: nat, cells: Cells): seq<Offer>
    requires WellFormed(n)
  {
    var q := p + |EncodeHeader(n)|;
    OffersBody(names, n.body, q, q, cells)
  }

  ghost function OffersBody(names: Names, b: Body, p: nat, self: nat, cells: Cells): seq<Offer>
    requires WellFormedBody(b)
  {
    match b
    case End(_) => []
    case Property(nops, offset, value, pad, rest) =>
      var after := CellsAfter(names, offset, value, cells);
      Own(names, offset, value, self, after)
      + OffersBody(names, rest, p + |EncodeProperty(nops, offset, value, pad)|, self, after)
    case Child(node, rest) =>
      Offers(names, node, p, cells) + OffersBody(names, rest, p + |Encode(node)|, self, cells)
  }

  ghost function Own(names: Names, offset: nat, value: Bytes, self: nat, cells: Cells): seq<Offer> {
    if offset in names && names[offset] == COMPATIBLE then [Offer(value, DtbNode(self, cells))] else []
  }

  ghost function FirstOffer(os: seq<Offer>, query: Bytes): Option<DtbNode> {
    if os == [] then None
    else if query in Members(os[0].value) then Some(os[0].node)
    else FirstOffer(os[1..], query)
  }

  lemma {:induction false} FirstOfferConcat(xs: seq<Offer>, ys: seq<Offer>, query: Bytes)
    ensures FirstOffer(xs + ys, query) ==
      if FirstOffer(xs, query).Some? then FirstOffer(xs, query) else FirstOffer(ys, query)
  {
    if xs == [] {
      assert xs + ys == ys;
    } else {
      assert (xs + ys)[1..] == xs[1..] + ys;
      FirstOfferConcat(xs[1..], ys, query);
    }
  }

  /** The node itself is compatible: the first of its own properties that says so. */
  ghost function OwnMatch(names: Names, b: Body, self: nat, cells: Cells, query: Bytes): Option<DtbNode> {
    match b
    case End(_) => None
    case Child(_, rest) => OwnMatch(names, rest, self, cells, query)
    case Property(_, offset, value, _, rest) =>
      var after := CellsAfter(names, offset, value, cells);
      var own := FirstOffer(Own(names, offset, value, self, after), query);
      if own.Some? then own else OwnMatch(names, rest, self, after, query)
  }

  /** The first node of a list of nodes that is itself compatible. */
  ghost function FirstCompatible(names: Names, es: seq<Entry>, query: Bytes): Option<DtbNode> {
    if es == [] then None
    else
      var own := OwnMatch(names, es[0].body, es[0].node.address, es[0].node.cells, query);
      if own.Some? then own else FirstCompatible(names, es[1..], query)
  }

  lemma {:induction false} FirstCompatibleConcat(names: Names, xs: seq<Entry>, ys: seq<Entry>, query: Bytes)
    ensures FirstCompatible(names, xs + ys, query) ==
      if FirstCompatible(names, xs, query).Some? then FirstCompatible(names, xs, query)
      else FirstCompatible(names, ys, query)
  {
    if xs == [] {
      assert xs + ys == ys;
    } else {
      assert (xs + ys)[1..] == xs[1..] + ys;
      FirstCompatibleConcat(names, xs[1..], ys, query);
    }
  }

  /** No subnode comes before a property, in any node: what the specification demands. */
  ghost predicate PropertiesFirst(n: Node) { PropertiesFirstBody(n.body) }

  ghost predicate PropertiesFirstBody(b: Body) {
    match b
    case End(_) => true
    case Property(_, _, _, _, rest) => PropertiesFirstBody(rest)
    case Child(node, rest) => PropertiesFirst(node) && OnlyChildren(rest) && PropertiesFirstBody(rest)
  }

  ghost predicate OnlyChildren(b: Body) {
    match b
    case End(_) => true
    case Property(_, _, _, _, _) => false
    case Child(_, rest) => OnlyChildren(rest)
  }

  /** With properties first, the first match in document order is the first compatible node in pre-order. */
  lemma {:induction false} OffersInPreorder(names: Names, n: Node, p: nat, cells: Cells, query: Bytes)
    requires WellFormed(n) && PropertiesFirst(n)
    ensures FirstOffer(Offers(names, n, p, cells), query) == FirstCompatible(names, Preorder(names, n, p, cells), query)
    decreases n
  {
    var q := p + |EncodeHeader(n)|;
    var entry, below := Entry(n.name, n.body, DtbNode(q, cells)), PreorderBody(names, n.body, q, cells);
    assert Preorder(names, n, p, cells) == [entry] + below;
    assert ([entry] + below)[1..] == below;
    OffersBodyInPreorder(names, n.body, q, q, cells, query);
  }

  lemma {:induction false} OffersBodyInPreorder(names: Names, b: Body, p: nat, self: nat, cells: Cells, query: Bytes)
    requires WellFormedBody(b) && PropertiesFirstBody(b)
    ensures FirstOffer(OffersBody(names, b, p, self, cells), query) ==
      if OwnMatch(names, b, self, cells, query).Some? then OwnMatch(names, b, self, cells, query)
      else FirstCompatible(names, PreorderBody(names, b, p, cells), query)
    decreases b
  {
    match b {
      case End(_) =>
      case Property(nops, offset, value, pad, rest) =>
        var after := CellsAfter(names, offset, value, cells);
        var next := p + |EncodeProperty(nops, offset, value, pad)|;
        OffersBodyInPreorder(names, rest, next, self, after, query);
        FirstOfferConcat(Own(names, offset, value, self, after), OffersBody(names, rest, next, self, after), query);
      case Child(node, rest) =>
        var next := p + |Encode(node)|;
        OffersInPreorder(names, node, p, cells, query);
        OffersBodyInPreorder(names, rest, next, self, cells, query);
        NoOwnMatch(names, rest, self, cells, query);
        FirstOfferConcat(Offers(names, node, p, cells), OffersBody(names, rest, next, self, cells), query);
        FirstCompatibleConcat(names, Preorder(names, node, p, cells), PreorderBody(names, rest, next, cells), query);
    }
  }

  lemma {:induction false} NoOwnMatch(names: Names, b: Body, self: nat, cells: Cells, query: Bytes)
    requires OnlyChildren(b)
    ensures OwnMatch(names, b, self, cells, query) == None
  {
    match b {
      case End(_) =>
      case Child(_, rest) => NoOwnMatch(names, rest, self, cells, query);
    }
  }

  // ------------------------------------------------------------------ properties of one node

  datatype DtbProperty = DtbProperty(address: nat, cells: Cells, length: nat)

  /** The first property of that name ahead of any subnode, with the cell counts in force after it. */
  ghost function Lookup(names: Names, b: Body, p: nat, cells: Cells, query: Bytes): Option<DtbProperty>
    requires WellFormedBody(b)
  {
    match b
    case End(_) => None
    case Child(_, _) => None
    case Property(nops, offset, value, pad, rest) =>
      var after := CellsAfter(names, offset, value, cells);
      if offset in names && names[offset] == query then Some(DtbProperty(p + 4 * nops + 12, after, |value|))
      else Lookup(names, rest, p + |EncodeProperty(nops, offset, value, pad)|, after, query)
  }

  /** The value of the first property of that name ahead of any subnode. */
  ghost function ValueOf(names: Names, b: Body, query: Bytes): Option<Bytes>
  {
    match b
    case Property(_, offset, value, _, rest) =>
      if offset in names && names[offset] == query then Some(value) else ValueOf(names, rest, query)
    case _ => None
  }

  /** No cell count of the node's own comes ahead of the property. */
  ghost predicate NoCellsAhead(names: Names, b: Body, query: Bytes) {
    match b
    case Property(_, offset, _, _, rest) =>
      offset in names
      && (names[offset] == query
          || (names[offset] != ADDRESS_CELLS && names[offset] != SIZE_CELLS && NoCellsAhead(names, rest, query)))
    case _ => true
  }

  /** Then the property is read under the counts the node inherits. */
  lemma {:induction false} LookupInherits(names: Names, b: Body, p: nat, cells: Cells, query: Bytes)
    requires WellFormedBody(b) && NoCellsAhead(names, b, query) && query != ADDRESS_CELLS && query != SIZE_CELLS
    ensures Lookup(names, b, p, cells, query).Some? ==> Lookup(names, b, p, cells, query).value.cells == cells
  {
    match b {
      case Property(nops, offset, value, pad, rest) =>
        if names[offset] != query {
          LookupInherits(names, rest, p + |EncodeProperty(nops, offset, value, pad)|, cells, query);
        }
      case _ =>
    }
  }

  /** The last value of a property of that name up to and with the one that a lookup finds. */
  ghost function LastValue(names: Names, b: Body, query: Bytes, name: string): Option<Bytes> {
    match b
    case Property(_, offset, value, _, rest) =>
      var own := if offset in names && IsAscii(names[offset], name) then Some(value) else None;
      if offset in names && names[offset] == query then own
      else
        var later := LastValue(names, rest, query, name);
        if later.Some? then later else own
    case _ => None
  }

  /** Cell counts, wherever they stand, are one 32-bit word. */
  ghost predicate CellsAreWords(names: Names, b: Body) {
    match b
    case Property(_, offset, value, _, rest) =>
      && (offset in names && (IsAscii(names[offset], "#address-cells") || IsAscii(names[offset], "#size-cells")) ==>
            |value| == 4)
      && CellsAreWords(names, rest)
    case _ => true
  }

  lemma WordIsBigEndian(v: Bytes)
    requires |v| == 4
    ensures DecodeU32(v) == BigEndian(v)
  {
    assert v[..3][..2] == v[..2] && v[..2][..1] == v[..1];
    assert BigEndian(v[..1]) == v[0] as nat;
    assert BigEndian(v[..2]) == v[0] as nat * 0x100 + v[1] as nat;
    assert BigEndian(v[..3]) == (v[0] as nat * 0x100 + v[1] as nat) * 0x100 + v[2] as nat;
  }

  /** A count of cells, given the property that was last to set it, if any. */
  ghost function Count(last: Option<Bytes>, inherited: nat): nat {
    if last.Some? then BigEndian(last.value) else inherited
  }

  /** A property is read under the last `#address-cells` and the last `#size-cells` of its node that stand ahead of it,
      and under what the node inherits where there is none. */
  lemma {:induction false} LookupCells(names: Names, b: Body, p: nat, cells: Cells, query: Bytes)
    requires WellFormedBody(b) && CellsAreWords(names, b)
    ensures var r := Lookup(names, b, p, cells, query);
      r.Some? ==> r.value.cells == Cells(Count(LastValue(names, b, query, "#address-cells"), cells.address),
                                         Count(LastValue(names, b, query, "#size-cells"), cells.size))
  {
    hide BigEndian, DecodeU32, IsAscii;
    match b {
      case Property(nops, offset, value, pad, rest) =>
        var after := CellsAfter(names, offset, value, cells);
        if offset in names {
          CellNames(names[offset]);
        }
        if |value| == 4 {
          WordIsBigEndian(value);
        }
        if !(offset in names && names[offset] == query) {
          LookupCells(names, rest, p + |EncodeProperty(nops, offset, value, pad)|, after, query);
        }
      case _ =>
    }
  }

  /** The bytes of a text. */
  ghost predicate IsAscii(s: Bytes, text: string) {
    |s| == |text| && forall i :: 0 <= i < |s| ==> s[i] as int == text[i] as int
  }

  /** The names that the scanners look for. */
  lemma CellNames(s: Bytes)
    ensures IsAscii(s, "#address-cells") <==> s == ADDRESS_CELLS
    ensures IsAscii(s, "#size-cells") <==> s == SIZE_CELLS
  {
  }

  lemma OtherNames(s: Bytes)
    ensures IsAscii(s, "reg") <==> s == REG
    ensures IsAscii(s, "compatible") <==> s == COMPATIBLE
  {
  }

  /** A node `a` behind a NOP, with one property of name offset 5 and the value 6 0 7, as its words stand in a block. */
  lemma EncodingExample()
    ensures var n := Node(1, [97], [0, 0], Property(0, 5, [6, 0, 7], [0], End(0)));
      WellFormed(n) && Encode(n) == [0, 0, 0, 4, 0, 0, 0, 1, 97, 0, 0, 0,
                                     0, 0, 0, 3, 0, 0, 0, 3, 0, 0, 0, 5, 6, 0, 7, 0, 0, 0, 0, 2]
  {
    hide PadsTo4, EncodeHeader, EncodeProperty, EncodeU32, Nops;
    HeaderExample();
    PropertyExample();
  }

  lemma HeaderExample()
    ensures var n := Node(1, [97], [0, 0], Property(0, 5, [6, 0, 7], [0], End(0)));
      PadsTo4(2, [0, 0]) && PadsTo4(3, [0]) && EncodeHeader(n) == [0, 0, 0, 4, 0, 0, 0, 1, 97, 0, 0, 0]
    ensures Nops(0) == []
  {
    assert Nops(1) == NOP + Nops(0);
    assert [97] + [0] + [0, 0] == [97, 0, 0, 0];
  }

  lemma PropertyExample()
    requires PadsTo4(3, [0])
    ensures EncodeProperty(0, 5, [6, 0, 7], [0]) == [0, 0, 0, 3, 0, 0, 0, 3, 0, 0, 0, 5, 6, 0, 7, 0]
  {
    hide PadsTo4;
    assert EncodeU32(3) == [0, 0, 0, 3] && EncodeU32(5) == [0, 0, 0, 5];
    assert [6, 0, 7] + [0] == [6, 0, 7, 0];
  }

  /** A big-endian number. */
  function BigEndian(v: Bytes): nat {
    if v == [] then 0 else BigEndian(v[..|v| - 1]) * 0x100 + v[|v| - 1] as nat
  }

  function Bound(n: nat): nat { if n == 0 then 1 else 0x100 * Bound(n - 1) }

  lemma {:induction false} BigEndianBound(v: Bytes)
    ensures BigEndian(v) < Bound(|v|)
  {
    if v != [] {
      BigEndianBound(v[..|v| - 1]);
    }
  }
}
