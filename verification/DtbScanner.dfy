/** The recursive-descent scanner over the structure block. */
module DtbScanner {
  import opened Options
  import opened DeviceTree

  /** `Result<Option<DtbNode>, ()>` */
  datatype SearchResult = Error | NotFound | Found(node: DtbNode)

  function Align4(p: nat): (q: nat)
    ensures q % 4 == 0 && p <= q < p + 4
    ensures p % 4 == 0 ==> q == p
  {
    (p + 3) / 4 * 4
  }

  /** `read_node`: four bytes, checked against the end of the structure block. */
  function ReadNode(d: Blob, p: nat): (r: Option<Bytes>)
    requires p + 4 <= |d.bytes|
    ensures r.Some? <==> p < d.structOffset + d.structSize
  {
    if p >= d.StructEnd() then None else Some(d.bytes[p..p + 4])
  }

  /** `read_be_u32_node` */
  function ReadU32(d: Blob, p: nat): (r: Option<nat>)
    requires p + 4 <= |d.bytes|
    ensures r.Some? <==> p < d.structOffset + d.structSize
  {
    if p >= d.StructEnd() then None else Some(DecodeU32(d.bytes[p..p + 4]))
  }

  /** `token` stands at `p` after `k` NOPs, inside the structure block. */
  ghost predicate TokenAfter(d: Blob, p: nat, k: nat, token: Bytes) {
    && |token| == 4 && token != NOP
    && At(d.bytes, p, Nops(k) + token) && p + 4 * k + 4 <= d.StructEnd()
  }

  lemma NopHead(d: Blob, p: nat, k: nat, token: Bytes)
    requires TokenAfter(d, p, k, token)
    ensures p + 4 * k + 4 <= |d.bytes| && p + 4 * k + 4 <= d.StructEnd() && token != NOP
    ensures ReadNode(d, p) == Some(if k == 0 then token else NOP)
    ensures k > 0 ==> TokenAfter(d, p + 4, k - 1, token)
  {
    if k == 0 {
      assert Nops(0) + token == token;
    } else {
      assert Nops(k) + token == NOP + (Nops(k - 1) + token);
      AtSplit(d.bytes, p, NOP, Nops(k - 1) + token);
    }
  }

  method SkipNop(d: Blob, p0: nat, ghost k: nat, ghost token: Bytes) returns (ok: bool, p: nat)
    requires TokenAfter(d, p0, k, token)
    ensures ok && p == p0 + 4 * k && p + 4 <= d.StructEnd() && p + 4 <= |d.bytes| && ReadNode(d, p) == Some(token)
  {
    hide TokenAfter, ReadNode;
    p := p0;
    ghost var left: nat := k;
    NopHead(d, p, left, token);
    while ReadNode(d, p) == Some(NOP)
      invariant left <= k && p == p0 + 4 * (k - left) && TokenAfter(d, p, left, token)
      invariant p + 4 * left + 4 <= |d.bytes| && p + 4 * left + 4 <= d.StructEnd()
      invariant ReadNode(d, p) == Some(if left == 0 then token else NOP)
      decreases left
    {
      NopHead(d, p, left, token);
      NopHead(d, p + 4, left - 1, token);
      p, left := p + 4, left - 1;
    }
    ok := ReadNode(d, p).Some?;
  }

  /** Byte `e` is the first NUL at or after `p`. */
  ghost predicate NulAt(d: Blob, p: nat, e: nat) {
    p <= e < |d.bytes| && d.bytes[e] == 0 && forall i :: p <= i < e ==> d.bytes[i] != 0
  }

  /** The loop past a NUL and the padding behind it. */
  method SkipString(d: Blob, p0: nat, ghost e: nat) returns (p: nat)
    requires NulAt(d, p0, e)
    ensures p == Align4(e + 1)
  {
    p := p0;
    while d.bytes[p] != 0
      invariant p0 <= p <= e
      decreases e - p
    {
      p := p + 1;
    }
    p := Align4(p + 1);
  }

  /** `compare_string` with the delimiter `@`: whether the name at `p` matches; moves past the name. */
  method CompareString(d: Blob, p0: nat, query: Bytes, ghost name: Bytes) returns (same: bool, p: nat)
    requires NoNul(name) && NoNul(query) && At(d.bytes, p0, name + [0])
    ensures same == Matches(name, query) && p == Align4(p0 + |name| + 1)
  {
    NameBytes(d, p0, name);
    p := p0;
    for i := 0 to |query|
      invariant i <= |name| && p == p0 + i && query[..i] == name[..i]
    {
      if query[i] != d.bytes[p] {
        p := SkipString(d, p, p0 + |name|);
        return false, p;
      }
      p := p + 1;
    }
    var l := d.bytes[p];
    p := SkipString(d, p, p0 + |name|);
    same := l == 64 || l == 0;
  }

  lemma NameBytes(d: Blob, p: nat, name: Bytes)
    requires NoNul(name) && At(d.bytes, p, name + [0])
    ensures NulAt(d, p, p + |name|) && forall i :: 0 <= i < |name| ==> d.bytes[p + i] == name[i]
  {
    forall i | 0 <= i <= |name|
      ensures d.bytes[p + i] == (name + [0])[i]
    {
      assert d.bytes[p + i] == d.bytes[p..p + |name| + 1][i];
    }
  }

  /** `compare_name_segment` without delimiters: whether the property name at an offset is `query`, or an error for an
      offset outside the strings block. */
  method CompareNameSegment(d: Blob, offset: nat, query: Bytes, ghost name: Bytes) returns (ok: bool, same: bool)
    requires (offset < d.stringsSize ==> NamedAt(d, offset, name)) && NoNul(query)
    ensures ok == (offset < d.stringsSize) && same == (ok && name == query)
    ensures NamedAt(d, offset, name) ==> ok
  {
    if offset >= d.stringsSize {
      return false, false;
    }
    var p := d.stringsOffset + offset;
    assert NamedAt(d, offset, name);
    NameBytes(d, p, name);
    ok := true;
    for i := 0 to |query|
      invariant i <= |name| && p == d.stringsOffset + offset + i && query[..i] == name[..i] && ok
    {
      if query[i] != d.bytes[p] {
        return true, false;
      }
      assert i < |name| && name[i] == query[i];
      p := p + 1;
    }
    same := d.bytes[p] == 0;
    assert same ==> query == name;
  }

  /** A well-formed body stands at `p`, inside the structure block. */
  ghost predicate BodyAt(d: Blob, names: Names, b: Body, p: nat) {
    && p % 4 == 0 && WellFormedBody(b) && Named(d, names, b)
    && At(d.bytes, p, EncodeBody(b)) && p + |EncodeBody(b)| <= d.StructEnd()
  }

  ghost predicate NodeAt(d: Blob, names: Names, n: Node, p: nat) {
    && p % 4 == 0 && WellFormed(n) && Named(d, names, n.body)
    && At(d.bytes, p, Encode(n)) && p + |Encode(n)| <= d.StructEnd()
  }

  lemma BodyFacts(d: Blob, names: Names, b: Body, p: nat)
    requires BodyAt(d, names, b, p)
    ensures WellFormedBody(b) && Align4(p) == p
    ensures b.Property? ==> b.nameOffset in names
  {
  }

  ghost function FirstToken(b: Body): Bytes {
    match b
    case End(_) => END_NODE
    case Property(_, _, _, _, _) => PROP
    case Child(_, _) => BEGIN_NODE
  }

  ghost function FirstNops(b: Body): nat {
    match b
    case End(nops) => nops
    case Property(nops, _, _, _, _) => nops
    case Child(node, _) => node.nops
  }

  /** Explicit padding ends where skipping to the next multiple of four ends. */
  lemma PaddingSkipped(a: nat, length: nat, pad: Bytes)
    requires a % 4 == 0 && PadsTo4(length, pad)
    ensures a + length + |pad| == Align4(a + length)
  {
  }

  /** Whole words stay whole words. */
  lemma Words(p: nat, k: nat, n: nat)
    requires p % 4 == 0 && n % 4 == 0
    ensures (p + 4 * k) % 4 == 0 && (p + n) % 4 == 0
  {
  }

  /** What a node's header puts in memory. */
  lemma HeaderParts(m: Bytes, n: Node, p: nat)
    requires PadsTo4(|n.name| + 1, n.pad) && At(m, p, EncodeHeader(n))
    ensures At(m, p, Nops(n.nops) + BEGIN_NODE) && At(m, p + 4 * n.nops + 4, n.name + [0])
  {
    hide At, Nops, PadsTo4;
    var nops, tail := Nops(n.nops), n.name + [0] + n.pad;
    assert EncodeHeader(n) == (nops + BEGIN_NODE) + tail;
    AtSplit(m, p, nops + BEGIN_NODE, tail);
    AtSplit(m, p + |nops + BEGIN_NODE|, n.name + [0], n.pad);
  }

  lemma HeaderAt(d: Blob, names: Names, n: Node, p: nat)
    requires NodeAt(d, names, n, p)
    ensures TokenAfter(d, p, n.nops, BEGIN_NODE)
    ensures At(d.bytes, p + 4 * n.nops + 4, n.name + [0])
    ensures BodyAt(d, names, n.body, p + |EncodeHeader(n)|)
    ensures p + |EncodeHeader(n)| == Align4(p + 4 * n.nops + 4 + |n.name| + 1)
  {
    hide At, Align4, PadsTo4, Nops, EncodeHeader, EncodeBody, WellFormedBody, Named;
    Words(p, n.nops + 1, |EncodeHeader(n)|);
    PaddingSkipped(p + 4 * n.nops + 4, |n.name| + 1, n.pad);
    AtSplit(d.bytes, p, EncodeHeader(n), EncodeBody(n.body));
    HeaderParts(d.bytes, n, p);
  }

  lemma FirstTokenAt(d: Blob, names: Names, b: Body, p: nat)
    requires BodyAt(d, names, b, p)
    ensures TokenAfter(d, p, FirstNops(b), FirstToken(b))
  {
    match b {
      case End(_) =>
      case Property(nops, offset, value, pad, rest) => PropertyAt(d, names, b, p);
      case Child(node, rest) => ChildAt(d, names, b, p); HeaderAt(d, names, node, p);
    }
  }

  /** What a property puts in memory. */
  lemma PropertyParts(m: Bytes, b: Body, p: nat)
    requires b.Property? && |b.value| < U32_LIMIT && b.nameOffset < U32_LIMIT && PadsTo4(|b.value|, b.pad)
    requires At(m, p, EncodeProperty(b.nops, b.nameOffset, b.value, b.pad))
    ensures At(m, p, Nops(b.nops) + PROP)
    ensures At(m, p + 4 * b.nops + 4, EncodeU32(|b.value|))
    ensures At(m, p + 4 * b.nops + 8, EncodeU32(b.nameOffset))
    ensures At(m, p + 4 * b.nops + 12, b.value)
  {
    hide At, Nops, EncodeU32, PadsTo4;
    var nops, len, off, tail := Nops(b.nops), EncodeU32(|b.value|), EncodeU32(b.nameOffset), b.value + b.pad;
    assert EncodeProperty(b.nops, b.nameOffset, b.value, b.pad) == (nops + PROP) + (len + (off + tail));
    AtSplit(m, p, nops + PROP, len + (off + tail));
    AtSplit(m, p + |nops + PROP|, len, off + tail);
    AtSplit(m, p + |nops + PROP| + 4, off, tail);
    AtSplit(m, p + |nops + PROP| + 8, b.value, b.pad);
  }

  lemma PropertyAt(d: Blob, names: Names, b: Body, p: nat)
    requires BodyAt(d, names, b, p) && b.Property?
    ensures TokenAfter(d, p, b.nops, PROP)
    ensures At(d.bytes, p + 4 * b.nops + 4, EncodeU32(|b.value|))
    ensures At(d.bytes, p + 4 * b.nops + 8, EncodeU32(b.nameOffset))
    ensures At(d.bytes, p + 4 * b.nops + 12, b.value)
    ensures var q := p + |EncodeProperty(b.nops, b.nameOffset, b.value, b.pad)|;
      BodyAt(d, names, b.rest, q) && q == Align4(p + 4 * b.nops + 12 + |b.value|)
      && p + 4 * b.nops + 12 < d.StructEnd()
  {
    hide At, Align4, PadsTo4, Nops, EncodeU32, EncodeProperty;
    var property := EncodeProperty(b.nops, b.nameOffset, b.value, b.pad);
    Words(p, b.nops + 3, |property|);
    PaddingSkipped(p + 4 * b.nops + 12, |b.value|, b.pad);
    AtSplit(d.bytes, p, property, EncodeBody(b.rest));
    PropertyParts(d.bytes, b, p);
  }

  lemma ChildAt(d: Blob, names: Names, b: Body, p: nat)
    requires BodyAt(d, names, b, p) && b.Child?
    ensures NodeAt(d, names, b.node, p) && BodyAt(d, names, b.rest, p + |Encode(b.node)|)
  {
    hide At, Encode, WellFormed;
    Words(p, 0, |Encode(b.node)|);
    AtSplit(d.bytes, p, Encode(b.node), EncodeBody(b.rest));
  }

  lemma NoNops()
    ensures Nops(0) == []
  {
  }

  lemma HeaderBehindNops(n: Node, p: nat)
    requires PadsTo4(|n.name| + 1, n.pad) && p % 4 == 0
    ensures EncodeHeader(n) == Nops(n.nops) + EncodeHeader(n.(nops := 0)) && (p + 4 * n.nops) % 4 == 0
  {
    hide PadsTo4, Nops;
    MoreWords(n.nops, p);
    NoNops();
    assert EncodeHeader(n.(nops := 0)) == BEGIN_NODE + (n.name + [0] + n.pad);
  }

  /** A node seen from behind the NOPs before it. */
  lemma BehindNops(d: Blob, names: Names, n: Node, p: nat, cells: Cells)
    requires NodeAt(d, names, n, p)
    ensures var n' := n.(nops := 0);
      && NodeAt(d, names, n', p + 4 * n.nops) && p + |Encode(n)| == p + 4 * n.nops + |Encode(n')|
      && Preorder(names, n', p + 4 * n.nops, cells) == Preorder(names, n, p, cells)
  {
    hide At, PadsTo4, EncodeHeader, EncodeBody, PreorderBody, WellFormedBody, Named;
    var n' := n.(nops := 0);
    HeaderBehindNops(n, p);
    assert Encode(n) == Nops(n.nops) + Encode(n');
    AtSplit(d.bytes, p, Nops(n.nops), Encode(n'));
  }

  /** Where a search may start: at a node, or behind the last one at the NOPs and the end token that
      close the structure block. */
  datatype Place = Here(node: Node) | Trailer(nops: nat)

  ghost predicate StandsAt(d: Blob, names: Names, place: Place, p: nat) {
    match place
    case Here(n) => NodeAt(d, names, n, p)
    case Trailer(k) => TokenAfter(d, p, k, END)
  }

  ghost function PlaceNops(place: Place): nat {
    match place case Here(n) => n.nops case Trailer(k) => k
  }

  lemma PlaceToken(d: Blob, names: Names, place: Place, p: nat)
    requires StandsAt(d, names, place, p)
    ensures TokenAfter(d, p, PlaceNops(place), if place.Here? then BEGIN_NODE else END)
  {
    if place.Here? {
      HeaderAt(d, names, place.node, p);
    }
  }

  /** The start of both recursive searches: past the NOPs and over the begin token, if there is one. */
  method EnterNode(d: Blob, p0: nat, ghost names: Names, ghost place: Place) returns (ok: bool, p: nat)
    requires StandsAt(d, names, place, p0)
    ensures ok == place.Here?
    ensures ok ==> p == p0 + 4 * place.node.nops + 4
  {
    hide StandsAt, TokenAfter;
    PlaceToken(d, names, place, p0);
    ok, p := SkipNop(d, p0, PlaceNops(place), if place.Here? then BEGIN_NODE else END);
    if !ok || ReadNode(d, p) != Some(BEGIN_NODE) {
      return false, p;
    }
    p := p + 4;
  }

  /** `_search_node`: the first node of the subtree in document order that matches, or, when there is
      none, the address just past the encoding of the subtree. */
  method SearchNode(d: Blob, query: Bytes, p0: nat, cells: Cells, ghost names: Names, ghost place: Place)
    returns (r: SearchResult, p: nat)
    requires StandsAt(d, names, place, p0) && NoNul(query)
    ensures place.Trailer? ==> r == Error
    ensures place.Here? ==> match FirstNamed(Preorder(names, place.node, p0, cells), query)
      case Some(x) => r == Found(x)
      case None => r == NotFound && p == p0 + |Encode(place.node)|
    decreases d.StructEnd() - p0, 0
  {
    var ok, same;
    ok, p := EnterNode(d, p0, names, place);
    if !ok {
      return Error, p;
    }
    ghost var n := place.node;
    HeaderAt(d, names, n, p0);
    ghost var entries := Preorder(names, n, p0, cells);
    assert entries[1..] == PreorderBody(names, n.body, p0 + |EncodeHeader(n)|, cells);
    hide EncodeBody, PreorderBody, BodyAt, Align4, Matches, At;
    same, p := CompareString(d, p, query, n.name);
    if same {
      return Found(DtbNode(p, cells)), p;
    }
    r, p := SearchBody(d, query, p, cells, names, n.body);
  }

  /** `skip_padding`, `skip_nop` and the read of the next token, at the head of every scanning loop. */
  method NextToken(d: Blob, p0: nat, ghost names: Names, ghost b: Body) returns (ok: bool, token: Bytes, p: nat)
    requires BodyAt(d, names, b, Align4(p0))
    ensures (token == BEGIN_NODE <==> b.Child?) && (token == END_NODE <==> b.End?) && (token == PROP <==> b.Property?)
    ensures ok && p == Align4(p0) + 4 * FirstNops(b) && p + 4 <= d.StructEnd()
  {
    p := Align4(p0);
    FirstTokenAt(d, names, b, p);
    ok, p := SkipNop(d, p, FirstNops(b), FirstToken(b));
    token := ReadNode(d, p).value;
  }

  /** `check_address_and_size_cells` on the property whose value stands at `p`. */
  method CheckCells(d: Blob, offset: nat, p: nat, cells0: Cells, ghost name: Bytes, ghost value: Bytes)
    returns (ok: bool, cells: Cells)
    requires NamedAt(d, offset, name) && At(d.bytes, p, value) && p < d.StructEnd()
    requires name == ADDRESS_CELLS || name == SIZE_CELLS ==> |value| == 4
    ensures ok && cells == UpdateCells(name, value, cells0)
  {
    hide NamedAt, DecodeU32;
    cells := cells0;
    var same;
    ok, same := CompareNameSegment(d, offset, ADDRESS_CELLS, name);
    if same {
      return true, cells.(address := ReadU32(d, p).value);
    }
    ok, same := CompareNameSegment(d, offset, SIZE_CELLS, name);
    if same {
      return true, cells.(size := ReadU32(d, p).value);
    }
  }

  /** What reading a property through the scanner yields: its length, its name offset, where its value
      starts, and the cell counts that hold after it. The rest of the body is found behind the value and
      its padding. */
  method ReadProperty(d: Blob, p0: nat, cells0: Cells, ghost names: Names, ghost b: Body, ghost start: nat)
    returns (ok: bool, length: nat, offset: nat, p: nat, cells: Cells)
    requires b.Property? && BodyAt(d, names, b, start) && p0 == start + 4 * b.nops
    ensures ok && length == |b.value| && offset == b.nameOffset && p == p0 + 12 && At(d.bytes, p, b.value)
    ensures offset in names && NamedAt(d, offset, names[offset])
    ensures cells == CellsAfter(names, offset, b.value, cells0)
    ensures Align4(p + length) == start + |EncodeProperty(b.nops, b.nameOffset, b.value, b.pad)|
    ensures BodyAt(d, names, b.rest, Align4(p + length))
    ensures Align4(p + length) + |EncodeBody(b.rest)| == start + |EncodeBody(b)|
  {
    hide EncodeU32, DecodeU32, Align4, PadsTo4, NamedAt, Nops, UpdateCells;
    PropertyAt(d, names, b, start);
    DecodeEncodeU32(|b.value|);
    DecodeEncodeU32(b.nameOffset);
    p := p0 + 4;
    length := ReadU32(d, p).value;
    p := p + 4;
    offset := ReadU32(d, p).value;
    p := p + 4;
    ok, cells := CheckCells(d, offset, p, cells0, names[b.nameOffset], b.value);
  }

  /** The loop of `_search_node` over what follows a node's name. */
  method SearchBody(d: Blob, query: Bytes, p0: nat, cells0: Cells, ghost names: Names, ghost body: Body)
    returns (r: SearchResult, p: nat)
    requires BodyAt(d, names, body, p0) && NoNul(query)
    ensures match FirstNamed(PreorderBody(names, body, p0, cells0), query)
      case Some(x) => r == Found(x)
      case None => r == NotFound && p == p0 + |EncodeBody(body)|
    decreases d.StructEnd() - p0, 2
  {
    hide EncodeBody, Encode, PreorderBody, Preorder, BodyAt, NodeAt, Align4, At, FirstNamed, CellsAfter, NamedAt,
      EncodeProperty;
    BodyFacts(d, names, body, p0);
    var cells, ok, token := cells0, true, [];
    p := p0;
    ghost var rest := body;
    ghost var answer, end := FirstNamed(PreorderBody(names, body, p0, cells0), query), p0 + |EncodeBody(body)|;
    while true
      invariant p0 <= p && WellFormedBody(rest) && BodyAt(d, names, rest, Align4(p))
      invariant Align4(p) + |EncodeBody(rest)| == end
      invariant answer == FirstNamed(PreorderBody(names, rest, Align4(p), cells), query)
      decreases rest
    {
      ghost var start := Align4(p);
      ok, token, p := NextToken(d, p, names, rest);
      if token == BEGIN_NODE {
        r, p := SearchChild(d, query, p, cells, names, rest, start);
        if r != NotFound {
          return;
        }
      } else if token == END_NODE {
        EndStep(d, names, rest, start, cells, query);
        return NotFound, p + 4;
      } else if token == PROP {
        var length, offset;
        PropertyStep(names, rest, start, cells);
        ok, length, offset, p, cells := ReadProperty(d, p, cells, names, rest, start);
        p := p + length;
      } else {
        return Error, p;
      }
      rest := rest.rest;
    }
  }

  /** The subnode branch of that loop. */
  method SearchChild(d: Blob, query: Bytes, p0: nat, cells: Cells, ghost names: Names, ghost b: Body, ghost start: nat)
    returns (r: SearchResult, p: nat)
    requires b.Child? && BodyAt(d, names, b, start) && p0 == start + 4 * b.node.nops && NoNul(query)
    ensures r.Found? ==> FirstNamed(PreorderBody(names, b, start, cells), query) == Some(r.node)
    ensures r.NotFound? ==> p0 < p && BodyAt(d, names, b.rest, Align4(p))
    ensures r.NotFound? ==> Align4(p) + |EncodeBody(b.rest)| == start + |EncodeBody(b)|
    ensures r.NotFound? ==>
      FirstNamed(PreorderBody(names, b, start, cells), query)
      == FirstNamed(PreorderBody(names, b.rest, Align4(p), cells), query)
    ensures !r.Error?
    decreases d.StructEnd() - p0, 1
  {
    hide EncodeBody, PreorderBody, Preorder, BodyAt, NodeAt, Align4, At, FirstNamed, WellFormed;
    BodyFacts(d, names, b, start);
    ChildStep(d, names, b, start, cells, query);
    r, p := SearchNode(d, query, p0, cells, names, Here(b.node.(nops := 0)));
  }

  lemma EndStep(d: Blob, names: Names, b: Body, p: nat, cells: Cells, query: Bytes)
    requires BodyAt(d, names, b, p) && b.End?
    ensures FirstNamed(PreorderBody(names, b, p, cells), query) == None && |EncodeBody(b)| == 4 * b.nops + 4
  {
  }

  lemma PropertyStep(names: Names, b: Body, p: nat, cells: Cells)
    requires b.Property? && WellFormedBody(b)
    ensures PreorderBody(names, b, p, cells) ==
      PreorderBody(names, b.rest, p + |EncodeProperty(b.nops, b.nameOffset, b.value, b.pad)|,
                   CellsAfter(names, b.nameOffset, b.value, cells))
  {
  }

  /** How a subnode at the head of a body takes part in the search of the body. */
  lemma ChildStep(d: Blob, names: Names, b: Body, p: nat, cells: Cells, query: Bytes)
    requires BodyAt(d, names, b, p) && b.Child?
    ensures var q := p + 4 * b.node.nops;
      var c := b.node.(nops := 0);
      && NodeAt(d, names, c, q) && BodyAt(d, names, b.rest, q + |Encode(c)|)
      && Align4(q + |Encode(c)|) == q + |Encode(c)|
      && p + |EncodeBody(b)| == q + |Encode(c)| + |EncodeBody(b.rest)|
      && (var here := FirstNamed(Preorder(names, c, q, cells), query);
          FirstNamed(PreorderBody(names, b, p, cells), query) ==
          if here.Some? then here else FirstNamed(PreorderBody(names, b.rest, q + |Encode(c)|, cells), query))
  {
    hide Encode, Preorder, At, FirstNamed, WellFormed;
    ChildAt(d, names, b, p);
    BehindNops(d, names, b.node, p, cells);
    var rest := PreorderBody(names, b.rest, p + |Encode(b.node)|, cells);
    FirstNamedConcat(Preorder(names, b.node, p, cells), rest, query);
  }
}
