/** Searches and property reads built on the scanner. */
module DtbQueries {
  import opened Arithmetic
  import opened Options
  import opened DeviceTree
  import opened DtbScanner

  // ------------------------------------------------------------------ compatible strings

  /** `_is_device_compatible`: whether the string is exactly one of the list. */
  method IsDeviceCompatible(d: Blob, address: nat, length: nat, query: Bytes, ghost v: Bytes) returns (r: bool)
    requires At(d.bytes, address, v) && length == |v| && Terminated(v) && NoNul(query)
    ensures r == (query in Members(v))
  {
    var p, skip := 0, false;
    hide MembersFrom, At;
    while p < length
      invariant p <= |v|
      invariant !skip ==> (query in Members(v)) == (query in MembersFrom(v, p))
      invariant skip ==> p < |v| && NulFrom(v, p) < |v|
      invariant skip ==> (query in Members(v)) == (query in MembersFrom(v, NulFrom(v, p) + 1))
      decreases length - p, !skip
    {
      ByteOf(d, address, v, p);
      ghost var e := NulFrom(v, p);
      MemberStep(v, p, query);
      if skip {
        if d.bytes[address + p] == 0 {
          skip := false;
        }
        p := p + 1;
        continue;
      }
      var found;
      found, p := CompareMember(d, address, p, query, v, e);
      if found {
        return true;
      }
      NulFromLater(v, p, e);
      skip := true;
    }
    NoMembers(v, query);
    return false;
  }

  lemma NoMembers(v: Bytes, query: Bytes)
    ensures query !in MembersFrom(v, |v|)
  {
  }

  lemma MemberStep(v: Bytes, p: nat, query: Bytes)
    requires p < |v| && Terminated(v)
    ensures var e := NulFrom(v, p);
      e < |v| && ((query in MembersFrom(v, p)) == (query == v[p..e] || query in MembersFrom(v, e + 1)))
  {
  }

  lemma ByteOf(d: Blob, address: nat, v: Bytes, i: nat)
    requires At(d.bytes, address, v) && i < |v|
    ensures address + i < |d.bytes| && d.bytes[address + i] == v[i]
  {
    assert d.bytes[address + i] == d.bytes[address..address + |v|][i];
  }

  lemma {:induction false} NulFromLater(v: Bytes, p: nat, e: nat)
    requires p <= e < |v| && v[e] == 0 && forall i :: p <= i < e ==> v[i] != 0
    ensures NulFrom(v, p) == e
    decreases e - p
  {
    if p < e {
      NulFromLater(v, p + 1, e);
    }
  }

  /** The inner loop over the string and its NUL; stops at the first difference. */
  method CompareMember(d: Blob, address: nat, p0: nat, query: Bytes, ghost v: Bytes, ghost e: nat)
    returns (same: bool, p: nat)
    requires p0 <= e < |v| && v[e] == 0 && (forall i :: p0 <= i < e ==> v[i] != 0) && NoNul(query)
    requires At(d.bytes, address, v)
    ensures same == (v[p0..e] == query)
    ensures !same ==> p0 <= p <= e
  {
    p := p0;
    var chain := query + [0];
    for i := 0 to |chain|
      invariant p == p0 + i && p <= e + 1 && (p == e + 1 ==> i == |query| + 1)
      invariant forall j :: 0 <= j < i ==> v[p0 + j] == chain[j]
    {
      ByteOf(d, address, v, p);
      if d.bytes[address + p] != chain[i] {
        assert v[p] != chain[i];
        if e - p0 == |query| {
          assert i < |query|;
          assert v[p0..e][i] == v[p];
        }
        return false, p;
      }
      p := p + 1;
    }
    assert v[p0 + |query|] == chain[|query|] == 0;
    assert e == p0 + |query|;
    assert forall j :: 0 <= j < |query| ==> v[p0..e][j] == v[p0 + j] == chain[j];
    assert v[p0..e] == query;
    same := true;
  }

  // ------------------------------------------------------------------ search by compatible string

  /** Every `compatible` value of a body and of the nodes below it is a list of NUL-terminated strings. */
  ghost predicate CompatibleLists(names: Names, b: Body) {
    match b
    case End(_) => true
    case Property(_, offset, value, _, rest) =>
      (offset in names && names[offset] == COMPATIBLE ==> Terminated(value)) && CompatibleLists(names, rest)
    case Child(node, rest) => CompatibleLists(names, node.body) && CompatibleLists(names, rest)
  }

  /** `_search_node_by_compatible`: the first match in document order, or the address past the subtree. */
  method SearchNodeByCompatible(d: Blob, query: Bytes, p0: nat, cells: Cells, ghost names: Names, ghost place: Place)
    returns (r: SearchResult, p: nat)
    requires StandsAt(d, names, place, p0) && NoNul(query) && (place.Here? ==> CompatibleLists(names, place.node.body))
    ensures place.Trailer? ==> r == Error
    ensures place.Here? ==> match FirstOffer(Offers(names, place.node, p0, cells), query)
      case Some(x) => r == Found(x)
      case None => r == NotFound && p == p0 + |Encode(place.node)|
    decreases d.StructEnd() - p0, 0
  {
    hide EncodeBody, OffersBody, BodyAt, Align4, At, TokenAfter;
    var ok;
    ok, p := EnterNode(d, p0, names, place);
    if !ok {
      return Error, p;
    }
    ghost var n := place.node;
    HeaderAt(d, names, n, p0);
    NameBytes(d, p, n.name);
    p := SkipString(d, p, p + |n.name|);
    r, p := SearchBodyByCompatible(d, query, p, cells, names, n.body);
  }

  method SearchBodyByCompatible(d: Blob, query: Bytes, p0: nat, cells0: Cells, ghost names: Names, ghost body: Body)
    returns (r: SearchResult, p: nat)
    requires BodyAt(d, names, body, p0) && NoNul(query) && CompatibleLists(names, body)
    ensures match FirstOffer(OffersBody(names, body, p0, p0, cells0), query)
      case Some(x) => r == Found(x)
      case None => r == NotFound && p == p0 + |EncodeBody(body)|
    decreases d.StructEnd() - p0, 2
  {
    hide EncodeBody, Encode, OffersBody, Offers, BodyAt, NodeAt, Align4, At, FirstOffer, CellsAfter;
    BodyFacts(d, names, body, p0);
    var cells, ok, token := cells0, true, [];
    p := p0;
    ghost var rest := body;
    ghost var answer, end := FirstOffer(OffersBody(names, body, p0, p0, cells0), query), p0 + |EncodeBody(body)|;
    while true
      invariant p0 <= p && WellFormedBody(rest) && BodyAt(d, names, rest, Align4(p))
      invariant Align4(p) + |EncodeBody(rest)| == end
      invariant CompatibleLists(names, rest)
      invariant answer == FirstOffer(OffersBody(names, rest, Align4(p), p0, cells), query)
      decreases rest
    {
      ghost var start := Align4(p);
      ok, token, p := NextToken(d, p, names, rest);
      if token == BEGIN_NODE {
        r, p := SearchChildByCompatible(d, query, p, cells, names, rest, start, p0);
        if r != NotFound {
          return;
        }
      } else if token == END_NODE {
        OfferEnd(d, names, rest, start, p0, cells, query);
        return NotFound, p + 4;
      } else if token == PROP {
        r, p, cells := OfferProperty(d, query, p, cells, names, rest, start, p0);
        if r != NotFound {
          return;
        }
      } else {
        return Error, p;
      }
      rest := rest.rest;
    }
  }

  lemma OfferEnd(d: Blob, names: Names, b: Body, p: nat, self: nat, cells: Cells, query: Bytes)
    requires BodyAt(d, names, b, p) && b.End?
    ensures FirstOffer(OffersBody(names, b, p, self, cells), query) == None && |EncodeBody(b)| == 4 * b.nops + 4
  {
  }

  /** The property branch: a `compatible` property that lists the string ends the search. */
  method OfferProperty(d: Blob, query: Bytes, p0: nat, cells0: Cells,
                       ghost names: Names, ghost b: Body, ghost start: nat, self: nat)
    returns (r: SearchResult, p: nat, cells: Cells)
    requires b.Property? && BodyAt(d, names, b, start) && p0 == start + 4 * b.nops
    requires NoNul(query) && CompatibleLists(names, b)
    ensures r.Found? ==> FirstOffer(OffersBody(names, b, start, self, cells0), query) == Some(r.node)
    ensures r.NotFound? ==> p0 < p && BodyAt(d, names, b.rest, Align4(p))
    ensures r.NotFound? ==> Align4(p) + |EncodeBody(b.rest)| == start + |EncodeBody(b)|
    ensures r.NotFound? ==>
      FirstOffer(OffersBody(names, b, start, self, cells0), query)
      == FirstOffer(OffersBody(names, b.rest, Align4(p), self, cells), query)
    ensures !r.Error?
  {
    hide OffersBody, BodyAt, Align4, At, FirstOffer, UpdateCells, EncodeBody, EncodeProperty, NamedAt, MembersFrom;
    BodyFacts(d, names, b, start);
    var ok, length, offset, same;
    OfferStep(names, b, start, self, cells0, query);
    ok, length, offset, p, cells := ReadProperty(d, p0, cells0, names, b, start);
    ok, same := CompareNameSegment(d, offset, COMPATIBLE, names[offset]);
    if same {
      same := IsDeviceCompatible(d, p, length, query, b.value);
      if same {
        return Found(DtbNode(self, cells)), p, cells;
      }
    }
    r, p := NotFound, p + length;
  }

  lemma OfferStep(names: Names, b: Body, p: nat, self: nat, cells: Cells, query: Bytes)
    requires b.Property? && WellFormedBody(b) && b.nameOffset in names
    ensures var after := CellsAfter(names, b.nameOffset, b.value, cells);
      FirstOffer(OffersBody(names, b, p, self, cells), query) ==
      if names[b.nameOffset] == COMPATIBLE && query in Members(b.value) then Some(DtbNode(self, after))
      else
        var next := p + |EncodeProperty(b.nops, b.nameOffset, b.value, b.pad)|;
        FirstOffer(OffersBody(names, b.rest, next, self, after), query)
  {
    var after := CellsAfter(names, b.nameOffset, b.value, cells);
    var own := Own(names, b.nameOffset, b.value, self, after);
    var next := p + |EncodeProperty(b.nops, b.nameOffset, b.value, b.pad)|;
    FirstOfferConcat(own, OffersBody(names, b.rest, next, self, after), query);
    hide UpdateCells, Members, OffersBody;
    assert own != [] ==> own[1..] == [];
  }

  /** The subnode branch. */
  method SearchChildByCompatible(d: Blob, query: Bytes, p0: nat, cells: Cells,
                                 ghost names: Names, ghost b: Body, ghost start: nat, ghost self: nat)
    returns (r: SearchResult, p: nat)
    requires b.Child? && BodyAt(d, names, b, start) && p0 == start + 4 * b.node.nops
    requires NoNul(query) && CompatibleLists(names, b)
    ensures r.Found? ==> FirstOffer(OffersBody(names, b, start, self, cells), query) == Some(r.node)
    ensures r.NotFound? ==> p0 < p && BodyAt(d, names, b.rest, Align4(p))
    ensures r.NotFound? ==> Align4(p) + |EncodeBody(b.rest)| == start + |EncodeBody(b)|
    ensures r.NotFound? ==>
      FirstOffer(OffersBody(names, b, start, self, cells), query)
      == FirstOffer(OffersBody(names, b.rest, Align4(p), self, cells), query)
    ensures !r.Error?
    decreases d.StructEnd() - p0, 1
  {
    hide EncodeBody, OffersBody, Offers, BodyAt, NodeAt, Align4, At, FirstOffer, WellFormed;
    BodyFacts(d, names, b, start);
    OfferChild(d, names, b, start, self, cells, query);
    r, p := SearchNodeByCompatible(d, query, p0, cells, names, Here(b.node.(nops := 0)));
  }

  lemma OffersBehindNops(names: Names, n: Node, p: nat, cells: Cells)
    requires WellFormed(n)
    ensures WellFormed(n.(nops := 0))
    ensures Offers(names, n.(nops := 0), p + 4 * n.nops, cells) == Offers(names, n, p, cells)
  {
  }

  lemma OfferChild(d: Blob, names: Names, b: Body, p: nat, self: nat, cells: Cells, query: Bytes)
    requires BodyAt(d, names, b, p) && b.Child?
    ensures var q := p + 4 * b.node.nops;
      var c := b.node.(nops := 0);
      && NodeAt(d, names, c, q) && BodyAt(d, names, b.rest, q + |Encode(c)|)
      && Align4(q + |Encode(c)|) == q + |Encode(c)|
      && p + |EncodeBody(b)| == q + |Encode(c)| + |EncodeBody(b.rest)|
      && (var here := FirstOffer(Offers(names, c, q, cells), query);
          FirstOffer(OffersBody(names, b, p, self, cells), query) ==
          if here.Some? then here else FirstOffer(OffersBody(names, b.rest, q + |Encode(c)|, self, cells), query))
  {
    hide Encode, Offers, At, FirstOffer, WellFormed;
    ChildAt(d, names, b, p);
    BehindNops(d, names, b.node, p, cells);
    OffersBehindNops(names, b.node, p, cells);
    var rest := OffersBody(names, b.rest, p + |Encode(b.node)|, self, cells);
    FirstOfferConcat(Offers(names, b.node, p, cells), rest, query);
  }

  // ------------------------------------------------------------------ properties of one node

  lemma LookupStep(names: Names, b: Body, p: nat, cells: Cells, query: Bytes)
    requires WellFormedBody(b)
    ensures !b.Property? ==> Lookup(names, b, p, cells, query) == None && ValueOf(names, b, query) == None
    ensures b.Property? && b.nameOffset in names ==>
      var after := CellsAfter(names, b.nameOffset, b.value, cells);
      if names[b.nameOffset] == query then
        && Lookup(names, b, p, cells, query) == Some(DtbProperty(p + 4 * b.nops + 12, after, |b.value|))
        && ValueOf(names, b, query) == Some(b.value)
      else
        && Lookup(names, b, p, cells, query)
          == Lookup(names, b.rest, p + |EncodeProperty(b.nops, b.nameOffset, b.value, b.pad)|, after, query)
        && ValueOf(names, b, query) == ValueOf(names, b.rest, query)
  {
  }

  /** `get_property` from the start of a node's body: the property of the tree, with its value in memory. */
  method GetProperty(d: Blob, node: DtbNode, query: Bytes, ghost names: Names, ghost body: Body)
    returns (r: Option<DtbProperty>)
    requires BodyAt(d, names, body, node.address) && NoNul(query)
    ensures r == Lookup(names, body, node.address, node.cells, query)
    ensures r.Some? <==> ValueOf(names, body, query).Some?
    ensures r.Some? ==> var v := ValueOf(names, body, query).value;
      |v| == r.value.length && At(d.bytes, r.value.address, v)
  {
    hide EncodeBody, BodyAt, Align4, At, UpdateCells, Lookup, ValueOf, EncodeProperty, NamedAt;
    BodyFacts(d, names, body, node.address);
    var p, cells, ok, token := node.address, node.cells, true, [];
    ghost var rest := body;
    ghost var answer := Lookup(names, body, p, cells, query);
    while true
      invariant WellFormedBody(rest) && BodyAt(d, names, rest, Align4(p))
      invariant answer == Lookup(names, rest, Align4(p), cells, query)
      invariant ValueOf(names, body, query) == ValueOf(names, rest, query)
      decreases rest
    {
      LookupStep(names, rest, Align4(p), cells, query);
      ghost var start := Align4(p);
      ok, token, p := NextToken(d, p, names, rest);
      if token != PROP {
        return None;
      }
      var length, offset, same;
      ok, length, offset, p, cells := ReadProperty(d, p, cells, names, rest, start);
      ok, same := CompareNameSegment(d, offset, query, names[offset]);
      if same {
        return Some(DtbProperty(p, cells, length));
      }
      p := p + length;
      rest := rest.rest;
    }
  }

  const USIZE: nat := 0x1_0000_0000_0000_0000

  /** Reading `n` bytes into a 64-bit word, most significant first. */
  method ReadBigEndian(d: Blob, p: nat, n: nat) returns (x: nat)
    requires p + n <= |d.bytes|
    ensures x == BigEndian(d.bytes[p..p + n]) % USIZE
  {
    x := 0;
    for i := 0 to n
      invariant x == BigEndian(d.bytes[p..p + i]) % USIZE
    {
      assert d.bytes[p..p + i + 1][..i] == d.bytes[p..p + i];
      ShiftIn(BigEndian(d.bytes[p..p + i]), d.bytes[p + i] as nat);
      x := (x * 0x100) % USIZE + d.bytes[p + i] as nat;
    }
  }

  /** `(x << 8) | b` in 64 bits. */
  lemma ShiftIn(x: nat, b: nat)
    requires b < 0x100
    ensures ((x % USIZE) * 0x100) % USIZE + b == (x * 0x100 + b) % USIZE
  {
    var q, r := x / USIZE, x % USIZE;
    assert x * 0x100 == r * 0x100 + q * 0x100 * USIZE;
    var s := r % 0x100_0000_0000_0000;
    assert (r * 0x100) % USIZE == s * 0x100;
    assert (x * 0x100 + b) % USIZE == s * 0x100 + b;
  }

  /** The bytes of a pair, and where a pair of a `reg` property ends, in 32-bit and 64-bit arithmetic. */
  function Stride(cells: Cells): nat { (cells.address + cells.size) % U32_LIMIT * 4 }

  function WrappedEnd(cells: Cells, index: nat): nat { (Stride(cells) * index % USIZE + Stride(cells)) % USIZE }

  /** Where the pair begins; nothing if it ends behind the property. */
  function RegOffset(cells: Cells, index: nat, length: nat): Option<nat> {
    if WrappedEnd(cells, index) > length then None else Some(Stride(cells) * index % USIZE)
  }

  /** The same in unbounded arithmetic. */
  function PairOffset(cells: Cells, index: nat, length: nat): Option<nat> {
    var stride := 4 * (cells.address + cells.size);
    if stride * (index + 1) > length then None else Some(stride * index)
  }

  /** Neither the number of cells nor the end of the pair wraps around. */
  predicate Bounded(cells: Cells, index: nat) {
    cells.address + cells.size < U32_LIMIT && 4 * (cells.address + cells.size) * (index + 1) < USIZE
  }

  /** The code finds the pair, or its absence, exactly when nothing wraps around or the wrapped end lies behind the
      property. */
  lemma RegOffsetIff(cells: Cells, index: nat, length: nat)
    requires length < U32_LIMIT
    ensures RegOffset(cells, index, length) == PairOffset(cells, index, length)
      <==> Bounded(cells, index) || WrappedEnd(cells, index) > length
  {
    var n := cells.address + cells.size;
    if Bounded(cells, index) {
      RegOffsetBounded(cells, index, length);
    } else if n >= U32_LIMIT {
      ProductAtLeast(index + 1, 4 * n);
    }
  }

  lemma RegOffsetBounded(cells: Cells, index: nat, length: nat)
    requires Bounded(cells, index)
    ensures RegOffset(cells, index, length) == PairOffset(cells, index, length)
  {
    var n := cells.address + cells.size;
    BoundedStride(4 * n, index);
    assert n % U32_LIMIT == n;
  }

  lemma BoundedStride(stride: nat, index: nat)
    requires stride * (index + 1) < USIZE
    ensures stride * index % USIZE == stride * index
    ensures (stride * index + stride) % USIZE == stride * (index + 1)
  {
    assert stride * (index + 1) == stride * index + stride;
  }

  /** With two cells each, index 2^60 finds the first pair of a property that has only one. */
  lemma RegWrapsExample()
    ensures RegOffset(Cells(2, 2), 0x1000_0000_0000_0000, 16) == Some(0)
    ensures PairOffset(Cells(2, 2), 0x1000_0000_0000_0000, 16) == None
  {
  }

  /** The pair of big-endian numbers at an index of a property value, if the value holds it. */
  ghost function RegPair(v: Bytes, cells: Cells, index: nat): Option<(nat, nat)>
  {
    var (a, s) := (4 * cells.address, 4 * cells.size);
    match PairOffset(cells, index, |v|)
    case None => None
    case Some(at) =>
      PairInside(cells, index, |v|);
      Some((BigEndian(v[at..at + a]), BigEndian(v[at + a..at + a + s])))
  }

  lemma PairInside(cells: Cells, index: nat, length: nat)
    requires PairOffset(cells, index, length).Some?
    ensures PairOffset(cells, index, length).value + 4 * cells.address + 4 * cells.size <= length
  {
    var stride := 4 * (cells.address + cells.size);
    assert stride * (index + 1) == stride * index + stride;
  }

  /** Numbers of at most two cells fit 64 bits. */
  lemma PairFits(v: Bytes, cells: Cells, index: nat)
    requires cells.address <= 2 && cells.size <= 2 && RegPair(v, cells, index).Some?
    ensures RegPair(v, cells, index).value.0 < USIZE && RegPair(v, cells, index).value.1 < USIZE
  {
    hide BigEndian;
    var (a, s) := (4 * cells.address, 4 * cells.size);
    var at := PairOffset(cells, index, |v|).value;
    PairInside(cells, index, |v|);
    BigEndianBound(v[at..at + a]);
    BigEndianBound(v[at + a..at + a + s]);
    BoundFits(a);
    BoundFits(s);
  }

  lemma BoundFits(n: nat)
    requires n == 0 || n == 4 || n == 8
    ensures Bound(n) <= USIZE
  {
    assert Bound(4) == 0x1_0000_0000;
    assert Bound(8) == 0x1_0000_0000 * 0x1_0000_0000;
  }

  /** The pair of a value, each number cut to 64 bits, which changes nothing for up to two cells. */
  ghost predicate ReadsPair(r: Option<(nat, nat)>, v: Bytes, cells: Cells, index: nat)
  {
    match RegPair(v, cells, index)
    case None => r == None
    case Some((address, size)) =>
      && r == Some((address % USIZE, size % USIZE))
      && (cells.address <= 2 && cells.size <= 2 ==> r == Some((address, size)))
  }

  /** The cell counts in force at the property let the code compute the place of the pair. */
  ghost predicate Computable(info: Option<DtbProperty>, index: nat)
  {
    info.None? ||
    (var cells := info.value.cells;
     Bounded(cells, index) && 4 * cells.address < U32_LIMIT && 4 * cells.size < U32_LIMIT)
  }

  /** `read_reg_property`: nothing exactly when the node has no `reg` property or the pair runs past its value;
      otherwise the big-endian pair at the index, under the cell counts in force, which are the inherited ones when
      no cell property comes first. */
  method ReadReg(d: Blob, node: DtbNode, index: nat, ghost names: Names, ghost body: Body)
    returns (r: Option<(nat, nat)>)
    requires BodyAt(d, names, body, node.address)
    requires Computable(Lookup(names, body, node.address, node.cells, REG), index)
    ensures var info := Lookup(names, body, node.address, node.cells, REG);
      match ValueOf(names, body, REG)
      case None => r == None
      case Some(v) =>
        && info.Some? && ReadsPair(r, v, info.value.cells, index)
        && (NoCellsAhead(names, body, REG) ==> ReadsPair(r, v, node.cells, index))
  {
    hide BodyAt, Lookup, BigEndian, ValueOf, At, Bounded, NoCellsAhead, RegPair, RegOffset, PairOffset, ReadsPair;
    var info := GetProperty(d, node, REG, names, body);
    if info.None? {
      return None;
    }
    var cells := info.value.cells;
    BodyFacts(d, names, body, node.address);
    if NoCellsAhead(names, body, REG) {
      LookupInherits(names, body, node.address, node.cells, REG);
    }
    ghost var v := ValueOf(names, body, REG).value;
    RegOffsetBounded(cells, index, |v|);
    PairRead(d, info.value.address, v, cells, index);
    var offset := RegOffset(cells, index, info.value.length);
    if offset.None? {
      return None;
    }
    var at := info.value.address + offset.value;
    var address := ReadBigEndian(d, at, 4 * cells.address);
    var size := ReadBigEndian(d, at + 4 * cells.address, 4 * cells.size);
    r := Some((address, size));
  }

  /** Reading the two numbers at the place of the pair reads the pair. */
  lemma PairRead(d: Blob, p: nat, v: Bytes, cells: Cells, index: nat)
    requires At(d.bytes, p, v)
    ensures match PairOffset(cells, index, |v|)
      case None => ReadsPair(None, v, cells, index)
      case Some(offset) =>
        var at, a, s := p + offset, 4 * cells.address, 4 * cells.size;
        && at + a + s <= |d.bytes|
        && ReadsPair(Some((BigEndian(d.bytes[at..at + a]) % USIZE, BigEndian(d.bytes[at + a..at + a + s]) % USIZE)),
                     v, cells, index)
  {
    hide BigEndian, PairOffset, At;
    var offset := PairOffset(cells, index, |v|);
    if offset.Some? {
      PairInside(cells, index, |v|);
      PartAt(d.bytes, p, v, offset.value, 4 * cells.address);
      PartAt(d.bytes, p, v, offset.value + 4 * cells.address, 4 * cells.size);
      if cells.address <= 2 && cells.size <= 2 {
        PairFits(v, cells, index);
      }
    }
  }

  /** Part of a string in memory. */
  lemma PartAt(m: Bytes, p: nat, v: Bytes, from: nat, n: nat)
    requires At(m, p, v) && from + n <= |v|
    ensures p + from + n <= |m| && m[p + from..p + from + n] == v[from..from + n]
  {
    var part := m[p + from..p + from + n];
    forall i | 0 <= i < n
      ensures part[i] == v[from..from + n][i]
    {
      assert part[i] == m[p + (from + i)] == m[p..p + |v|][from + i];
    }
  }

  // ------------------------------------------------------------------ searches from the start

  /** A structure block that holds one tree, any number of NOPs and the end token. */
  ghost predicate Block(d: Blob, names: Names, n: Node, trailing: nat) {
    && NodeAt(d, names, n, d.structOffset)
    && TokenAfter(d, d.structOffset + |Encode(n)|, trailing, [0, 0, 0, 9])
    && d.structSize == |Encode(n)| + 4 * trailing + 4
  }

  /** The NOPs and end token seen from one token further on. */
  lemma TrailerNext(d: Blob, p: nat, k: nat)
    requires TokenAfter(d, p, k, END) && k > 0
    ensures TokenAfter(d, p + 4, k - 1, END)
  {
    assert Nops(k) + END == NOP + (Nops(k - 1) + END);
    AtSplit(d.bytes, p, NOP, Nops(k - 1) + END);
  }

  /** `search_node` without a current node: the first match in pre-order. */
  method SearchByName(d: Blob, query: Bytes, ghost names: Names, ghost n: Node, ghost trailing: nat)
    returns (r: Option<DtbNode>)
    requires Block(d, names, n, trailing) && NoNul(query)
    ensures r == FirstNamed(Preorder(names, n, d.structOffset, DEFAULT_CELLS), query)
  {
    var p := d.structOffset;
    ghost var place := Here(n);
    hide Encode, Preorder, FirstNamed, TokenAfter;
    while p < d.StructEnd()
      invariant place == Here(n) ==> p == d.structOffset
      invariant place != Here(n) ==> FirstNamed(Preorder(names, n, d.structOffset, DEFAULT_CELLS), query) == None
      invariant p < d.StructEnd() ==> StandsAt(d, names, place, p)
      invariant place == Here(n) || place.Trailer?
      decreases d.StructEnd() - p
    {
      var found;
      found, p := SearchNode(d, query, p, DEFAULT_CELLS, names, place);
      if found.Found? {
        return Some(found.node);
      } else if found.Error? {
        return None;
      }
      if trailing > 0 { TrailerNext(d, p, trailing); }
      p := p + 4;
      place := Trailer(if trailing > 0 then trailing - 1 else 0);
    }
    return None;
  }

  /** `search_node_by_compatible` without a current node: the first match in document order, which is the
      first compatible node in pre-order when properties come first. */
  method SearchByCompatible(d: Blob, query: Bytes, ghost names: Names, ghost n: Node, ghost trailing: nat)
    returns (r: Option<DtbNode>)
    requires Block(d, names, n, trailing) && NoNul(query) && CompatibleLists(names, n.body)
    ensures r == FirstOffer(Offers(names, n, d.structOffset, DEFAULT_CELLS), query)
    ensures PropertiesFirst(n) ==> r == FirstCompatible(names, Preorder(names, n, d.structOffset, DEFAULT_CELLS), query)
  {
    if PropertiesFirst(n) { OffersInPreorder(names, n, d.structOffset, DEFAULT_CELLS, query); }
    var p := d.structOffset;
    ghost var place := Here(n);
    hide Encode, Preorder, Offers, FirstOffer, FirstCompatible, TokenAfter, PropertiesFirst;
    while p < d.StructEnd()
      invariant place == Here(n) ==> p == d.structOffset
      invariant place != Here(n) ==> FirstOffer(Offers(names, n, d.structOffset, DEFAULT_CELLS), query) == None
      invariant p < d.StructEnd() ==> StandsAt(d, names, place, p)
      invariant place == Here(n) || place.Trailer?
      decreases d.StructEnd() - p
    {
      var found;
      found, p := SearchNodeByCompatible(d, query, p, DEFAULT_CELLS, names, place);
      if found.Found? {
        return Some(found.node);
      } else if found.Error? {
        return None;
      }
      if trailing > 0 { TrailerNext(d, p, trailing); }
      p := p + 4;
      place := Trailer(if trailing > 0 then trailing - 1 else 0);
    }
    return None;
  }
}
