/** The DAG-PB reader, `src/api/dag-pb.ts`, against the serialisation of the IPLD DAG-PB specification. */
module DagPb {
  import opened Basics
  import opened Varints
  import opened Wire

  // ---------------------------------------------------------------- the reader

  /** Names stay bytes: turning them into text is not modelled. */
  datatype PBLink = PBLink(hash: Option<Bytes>, name: Bytes, size: int)
  datatype PBNode = PBNode(links: seq<PBLink>, data: Option<Bytes>)

  const NO_LINK := PBLink(None, [], 0)
  const NO_NODE := PBNode([], None)

  function LinkAfter(l: PBLink, t: Token): PBLink {
    match t
    case Chunk(field, payload) =>
      if field == 1 then l.(hash := Some(payload)) else if field == 2 then l.(name := payload) else l
    case Number(field, value) => if field == 3 then l.(size := value) else l
  }

  function LinkOf(l: PBLink, ts: seq<Token>): PBLink
    decreases |ts|
  {
    if ts == [] then l else LinkOf(LinkAfter(l, ts[0]), ts[1..])
  }

  function LinkFrom(l: PBLink, s: Bytes): Option<PBLink> {
    match Tokens(LinkLevel, s)
    case None => None
    case Some(ts) => Some(LinkOf(l, ts))
  }

  function NodeAfter(n: PBNode, t: Token): Option<PBNode> {
    if t.Chunk? && t.field == 1 then Some(n.(data := Some(t.payload)))
    else if t.Chunk? && t.field == 2 then
      match LinkFrom(NO_LINK, t.payload)
      case None => None
      case Some(l) => Some(n.(links := n.links + [l]))
    else Some(n)
  }

  function NodeOf(n: PBNode, ts: seq<Token>): Option<PBNode>
    decreases |ts|
  {
    if ts == [] then Some(n)
    else
      match NodeAfter(n, ts[0])
      case None => None
      case Some(next) => NodeOf(next, ts[1..])
  }

  /** What a block means, continuing from `n`; `None` when some length in it reads as negative. */
  function NodeFrom(n: PBNode, s: Bytes): Option<PBNode> {
    match Tokens(NodeLevel, s)
    case None => None
    case Some(ts) => NodeOf(n, ts)
  }

  lemma LinkStep(l: PBLink, s: Bytes, t: Token, rest: Bytes)
    requires Tokens(LinkLevel, s) == Prepend(t, Tokens(LinkLevel, rest))
    ensures LinkFrom(l, s) == LinkFrom(LinkAfter(l, t), rest)
  {
    hide LinkAfter, Tokens;
  }

  lemma NodeStep(n: PBNode, s: Bytes, t: Token, rest: Bytes)
    requires Tokens(NodeLevel, s) == Prepend(t, Tokens(NodeLevel, rest))
    requires NodeAfter(n, t).Some?
    ensures NodeFrom(n, s) == NodeFrom(NodeAfter(n, t).value, rest)
  {
    hide NodeAfter, Tokens;
  }

  lemma NodeFails(n: PBNode, s: Bytes, t: Token, rest: Bytes)
    requires Tokens(NodeLevel, s) == Prepend(t, Tokens(NodeLevel, rest))
    requires NodeAfter(n, t).None?
    ensures NodeFrom(n, s) == None
  {
    hide NodeAfter, Tokens;
  }

  lemma LinkDone(l: PBLink, s: Bytes)
    requires s == [] || Tokens(LinkLevel, s) == Some([])
    ensures LinkFrom(l, s) == Some(l)
  {
  }

  lemma NodeDone(n: PBNode, s: Bytes)
    requires s == [] || Tokens(NodeLevel, s) == Some([])
    ensures NodeFrom(n, s) == Some(n)
  {
  }

  /** The inner loop of `decodeDagPB`. */
  method DecodeLink(slice: Bytes) returns (link: Option<PBLink>)
    ensures link == LinkFrom(NO_LINK, slice)
  {
    hide LeadingTen, Leading, LinkFrom, Tokens, From, Upto;
    var l := NO_LINK;
    var lo := 0;
    FromStart(slice);
    while lo < |slice|
      invariant LinkFrom(l, From(slice, lo)) == LinkFrom(NO_LINK, slice)
      decreases |slice| - lo
    {
      ghost var s := From(slice, lo);
      TokensAt(LinkLevel, slice, lo);
      var tag, ltn := ReadVarintTen(slice, lo);
      lo := lo + ltn;
      var lf, lw := tag / 8, tag % 8;
      if lw == 2 {
        var ll, lln := ReadVarintTen(slice, lo);
        lo := lo + lln;
        if ll < 0 {
          LinkNegative(l, s);
          return None;
        }
        var ls := Upto(From(slice, lo), ll);
        lo := lo + ll;
        LinkStep(l, s, Chunk(lf, ls), From(slice, lo));
        if lf == 1 {
          l := l.(hash := Some(ls));
        } else if lf == 2 {
          l := l.(name := ls);
        }
      } else if lw == 0 {
        var lv, lvn := ReadVarintTen(slice, lo);
        lo := lo + lvn;
        LinkStep(l, s, Number(lf, lv), From(slice, lo));
        if lf == 3 {
          l := l.(size := lv);
        }
      } else {
        LinkDone(l, s);
        break;
      }
    }
    FromEnd(slice, lo);
    if lo >= |slice| {
      LinkDone(l, []);
    }
    link := Some(l);
  }

  lemma LinkNegative(l: PBLink, s: Bytes)
    requires Tokens(LinkLevel, s) == None
    ensures LinkFrom(l, s) == None
  {
  }

  lemma NodeNegative(n: PBNode, s: Bytes)
    requires Tokens(NodeLevel, s) == None
    ensures NodeFrom(n, s) == None
  {
  }

  method DecodeDagPB(block: Bytes) returns (node: Option<PBNode>)
    ensures node == NodeFrom(NO_NODE, block)
  {
    hide LeadingTen, Leading, NodeFrom, LinkFrom, Tokens, From, Upto;
    var links := new JsArray<PBLink>();
    var data: Option<Bytes> := None;
    var offset := 0;
    FromStart(block);
    while offset < |block|
      invariant fresh(links)
      invariant NodeFrom(PBNode(links.items, data), From(block, offset)) == NodeFrom(NO_NODE, block)
      decreases |block| - offset
    {
      ghost var s := From(block, offset);
      ghost var n := PBNode(links.items, data);
      TokensAt(NodeLevel, block, offset);
      var tag, tn := ReadVarintTen(block, offset);
      offset := offset + tn;
      var fieldNum, wireType := tag / 8, tag % 8;
      if wireType == 2 {
        var len, ln := ReadVarintTen(block, offset);
        offset := offset + ln;
        if len < 0 {
          NodeNegative(n, s);
          return None;
        }
        var slice := Upto(From(block, offset), len);
        offset := offset + len;
        ghost var t := Chunk(fieldNum, slice);
        if fieldNum == 1 {
          NodeStep(n, s, t, From(block, offset));
          data := Some(slice);
        } else if fieldNum == 2 {
          var link := DecodeLink(slice);
          if link.None? {
            NodeFails(n, s, t, From(block, offset));
            return None;
          }
          NodeStep(n, s, t, From(block, offset));
          links.Push(link.value);
        } else {
          NodeStep(n, s, t, From(block, offset));
        }
      } else if wireType == 0 {
        var v, vn := ReadVarintTen(block, offset);
        offset := offset + vn;
        NodeStep(n, s, Number(fieldNum, v), From(block, offset));
      } else {
        NodeDone(n, s);
        break;
      }
    }
    FromEnd(block, offset);
    if offset >= |block| {
      NodeDone(PBNode(links.items, data), []);
    }
    node := Some(PBNode(links.items, data));
  }

  // ---------------------------------------------------------------- the serialisation

  const TWO_64: nat := 0x1_0000_0000_0000_0000

  datatype Link = Link(hash: Option<Bytes>, name: Option<Bytes>, tsize: Option<nat>)

  /** The fields of a block in the order they are written; other fields a newer writer adds may stand between. */
  datatype Item = Data(bytes: Bytes) | Entry(link: Link) | Other(field: Field)

  /** A 64-bit size as the serialisation writes it: the low seven bits first, in at most ten bytes. */
  function Base128(n: nat): Bytes {
    if n <= 127 then [n] else [n % 128 + 128] + Base128(n / 128)
  }

  function LinkFields(l: Link): seq<Field> {
    (if l.hash.Some? then [LenField(1, l.hash.value)] else []) +
    (if l.name.Some? then [LenField(2, l.name.value)] else []) +
    (if l.tsize.Some? then [VarintField(3, Base128(l.tsize.value))] else [])
  }

  function ItemField(item: Item): Field {
    match item
    case Data(bytes) => LenField(1, bytes)
    case Entry(link) => LenField(2, EncodeFields(LinkFields(link)))
    case Other(field) => field
  }

  function ItemFields(items: seq<Item>): seq<Field> {
    seq(|items|, i requires 0 <= i < |items| => ItemField(items[i]))
  }

  function Serialise(items: seq<Item>): Bytes {
    EncodeFields(ItemFields(items))
  }

  /** Lengths below 2^31, sizes of 64 bits, and other fields that are not 1 or 2. */
  predicate Writable(item: Item) {
    match item
    case Data(bytes) => |bytes| < TWO_31
    case Entry(link) =>
      |EncodeFields(LinkFields(link))| < TWO_31 && (link.tsize.Some? ==> link.tsize.value < TWO_64)
    case Other(field) => field.Valid() && !(field.LenField? && (field.num == 1 || field.num == 2))
  }

  /** A size as the reader shows it: over 32 bits the higher groups wrap round and land on the lower ones. */
  function ShownSize(n: nat): int {
    Leading(Base128(n)).value
  }

  function Shown(l: Link): PBLink {
    PBLink(l.hash, if l.name.Some? then l.name.value else [], if l.tsize.Some? then ShownSize(l.tsize.value) else 0)
  }

  function LinksIn(items: seq<Item>): seq<Link> {
    if items == [] then []
    else (if items[0].Entry? then [items[0].link] else []) + LinksIn(items[1..])
  }

  function DataIn(items: seq<Item>): Option<Bytes> {
    if items == [] then None
    else
      var later := DataIn(items[1..]);
      if later.None? && items[0].Data? then Some(items[0].bytes) else later
  }

  function ShownAll(ls: seq<Link>): seq<PBLink> {
    seq(|ls|, i requires 0 <= i < |ls| => Shown(ls[i]))
  }

  // ---------------------------------------------------------------- inverse

  lemma {:induction false} FieldFits(fs: seq<Field>, i: nat)
    requires i < |fs| && fs[i].LenField?
    ensures |fs[i].payload| <= |EncodeFields(fs)|
  {
    if i > 0 {
      FieldFits(fs[1..], i - 1);
    }
  }

  /** What fits in `7 * k` bits takes at most `k` bytes, and is a whole varint. */
  lemma {:induction false} Base128Complete(n: nat, k: nat)
    requires if k == 10 then n < TWO_64 else n < Pow2(7 * k) && 1 <= k < 10
    ensures Complete(Base128(n)) && |Base128(n)| <= k
    decreases k
  {
    if n > 127 {
      if k == 10 {
        Pow2Of32();
        Pow2Add(32, 31);
        assert Pow2(31) == TWO_31;
      } else {
        Pow2Add(7 * (k - 1), 7);
        Pow2Of32();
      }
      Base128Complete(n / 128, k - 1);
    }
  }

  lemma {:induction false} Base128IsVarint(n: nat)
    requires n < TWO_32
    ensures Base128(n) == Varint(n)
  {
    if n > 127 {
      assert n % TWO_32 == n;
      Base128IsVarint(n / 128);
    }
  }

  /** A size is shown as it is exactly when it is below 2^31. */
  lemma SizeShownIff(n: nat)
    ensures ShownSize(n) == n <==> n < TWO_31
    ensures n < TWO_32 ==> ShownSize(n) == ToInt32(n)
  {
    hide Varint, Bits;
    if n < TWO_32 {
      Base128IsVarint(n);
      ReadBack(n, []);
      assert Varint(n) + [] == Varint(n);
    }
  }

  lemma LinkFieldsConsumed(l: Link)
    requires Writable(Entry(l))
    ensures forall f | f in LinkFields(l) :: Consumed(LinkLevel, f)
  {
    hide Varint, EncodeFields, Complete;
    var fs := LinkFields(l);
    forall i | 0 <= i < |fs|
      ensures Consumed(LinkLevel, fs[i])
    {
      if fs[i].LenField? {
        FieldFits(fs, i);
      } else {
        Base128Complete(l.tsize.value, 10);
      }
    }
  }

  lemma LinkOfCons(l: PBLink, f: Field, fs: seq<Field>)
    ensures LinkOf(l, TokensOf([f] + fs)) == LinkOf(LinkAfter(l, TokenOf(f)), TokensOf(fs))
  {
    hide LinkAfter, TokenOf;
    assert TokensOf([f] + fs)[1..] == TokensOf(fs);
  }

  lemma LinkReadBack(l: Link)
    requires Writable(Entry(l))
    ensures LinkFrom(NO_LINK, EncodeFields(LinkFields(l))) == Some(Shown(l))
  {
    LinkFieldsConsumed(l);
    hide Varint, EncodeFields, Tokens, LinkOf, Leading, ToInt32, TokensOf;
    TokensOfAll(LinkLevel, LinkFields(l));
    var h := if l.hash.Some? then [LenField(1, l.hash.value)] else [];
    var n := if l.name.Some? then [LenField(2, l.name.value)] else [];
    var z := if l.tsize.Some? then [VarintField(3, Base128(l.tsize.value))] else [];
    var l0 := NO_LINK;
    var l1 := l0.(hash := l.hash);
    var l2 := if l.name.Some? then l1.(name := l.name.value) else l1;
    if l.hash.Some? {
      LinkOfCons(l0, h[0], n + z);
      assert h + n + z == [h[0]] + (n + z);
    } else {
      assert h + n + z == n + z;
    }
    if l.name.Some? {
      LinkOfCons(l1, n[0], z);
      assert n + z == [n[0]] + z;
    } else {
      assert n + z == z;
    }
    if l.tsize.Some? {
      LinkOfCons(l2, z[0], []);
      assert z == [z[0]] + [];
    }
    LinkOfNone(Shown(l));
  }

  lemma LinkOfNone(l: PBLink)
    ensures LinkOf(l, TokensOf([])) == l
  {
  }

  lemma ItemConsumed(item: Item)
    requires Writable(item)
    ensures Consumed(NodeLevel, ItemField(item))
  {
    hide EncodeFields, Complete;
  }

  /** What one item does to the node read so far. */
  lemma ItemReadBack(n: PBNode, item: Item)
    requires Writable(item)
    ensures NodeAfter(n, TokenOf(ItemField(item))) == Some(
              match item
              case Data(bytes) => n.(data := Some(bytes))
              case Entry(link) => n.(links := n.links + [Shown(link)])
              case Other(_) => n)
  {
    hide EncodeFields, LinkFrom, LinkFields, Complete, Leading, Shown;
    if item.Entry? {
      LinkReadBack(item.link);
    }
  }

  lemma ItemsCons(item: Item, tail: seq<Item>)
    ensures TokensOf(ItemFields([item] + tail)) == [TokenOf(ItemField(item))] + TokensOf(ItemFields(tail))
    ensures LinksIn([item] + tail) == (if item.Entry? then [item.link] else []) + LinksIn(tail)
    ensures DataIn([item] + tail)
         == (if DataIn(tail).None? && item.Data? then Some(item.bytes) else DataIn(tail))
  {
    hide TokenOf, ItemField;
    assert ([item] + tail)[1..] == tail;
  }

  lemma NodeOfCons(n: PBNode, t: Token, ts: seq<Token>)
    requires NodeAfter(n, t).Some?
    ensures NodeOf(n, [t] + ts) == NodeOf(NodeAfter(n, t).value, ts)
  {
    hide NodeAfter;
    assert ([t] + ts)[1..] == ts;
  }

  lemma ShownAllAppend(a: seq<Link>, b: seq<Link>)
    ensures ShownAll(a + b) == ShownAll(a) + ShownAll(b)
    ensures |a| == 1 ==> ShownAll(a) == [Shown(a[0])]
    ensures ShownAll([]) == []
  {
    hide Shown;
  }

  lemma {:induction false} NodeOfItems(n: PBNode, items: seq<Item>)
    requires forall item | item in items :: Writable(item)
    ensures NodeOf(n, TokensOf(ItemFields(items)))
         == Some(PBNode(n.links + ShownAll(LinksIn(items)), if DataIn(items).Some? then DataIn(items) else n.data))
    decreases |items|
  {
    hide Writable, NodeAfter, TokenOf, ItemField, Shown, ShownAll;
    ShownAllAppend([], []);
    if items == [] {
      assert n.links + [] == n.links;
    } else {
      hide NodeOf, TokensOf, ItemFields, LinksIn, DataIn;
      var item, tail := items[0], items[1..];
      assert items == [item] + tail && item in items;
      ItemReadBack(n, item);
      var t := TokenOf(ItemField(item));
      var next := NodeAfter(n, t).value;
      ItemsCons(item, tail);
      NodeOfCons(n, t, TokensOf(ItemFields(tail)));
      NodeOfItems(next, tail);
      if item.Entry? {
        ShownAllAppend([item.link], LinksIn(tail));
        assert n.links + ([Shown(item.link)] + ShownAll(LinksIn(tail))) == next.links + ShownAll(LinksIn(tail));
      } else {
        assert [] + LinksIn(tail) == LinksIn(tail);
      }
    }
  }

  /**
   * DAG-PB inverse, in general: wherever the data and any fields of a newer format stand among the
   * links, the block reads as its links in order and its last data.
   */
  lemma ReadsItems(items: seq<Item>)
    requires forall item | item in items :: Writable(item)
    ensures NodeFrom(NO_NODE, Serialise(items)) == Some(PBNode(ShownAll(LinksIn(items)), DataIn(items)))
  {
    hide Writable, Tokens, NodeOf, TokensOf, EncodeFields;
    forall f | f in ItemFields(items)
      ensures Consumed(NodeLevel, f)
    {
      var i :| 0 <= i < |items| && f == ItemField(items[i]);
      assert items[i] in items;
      ItemConsumed(items[i]);
    }
    TokensOfAll(NodeLevel, ItemFields(items));
    NodeOfItems(NO_NODE, items);
    assert [] + ShownAll(LinksIn(items)) == ShownAll(LinksIn(items));
  }

  // ---------------------------------------------------------------- the two orders in use

  datatype Node = Node(links: seq<Link>, data: Option<Bytes>)

  function Entries(links: seq<Link>): seq<Item> {
    if links == [] then [] else [Entry(links[0])] + Entries(links[1..])
  }

  function DataItem(data: Option<Bytes>): seq<Item> {
    if data.Some? then [Data(data.value)] else []
  }

  function ItemsOf(n: Node, dataFirst: bool): seq<Item> {
    if dataFirst then DataItem(n.data) + Entries(n.links) else Entries(n.links) + DataItem(n.data)
  }

  lemma {:induction false} LinksThenMore(links: seq<Link>, more: seq<Item>)
    ensures LinksIn(Entries(links) + more) == links + LinksIn(more)
    ensures DataIn(Entries(links) + more) == DataIn(more)
    decreases |links|
  {
    if links == [] {
      Associative(more, [], []);
      Associative(LinksIn(more), [], []);
      assert Entries(links) + more == more;
    } else {
      hide LinksIn, DataIn;
      var l, tail := links[0], links[1..];
      var items := Entries(tail) + more;
      Associative([Entry(l)], Entries(tail), more);
      assert Entries(links) + more == [Entry(l)] + items;
      ItemsCons(Entry(l), items);
      LinksThenMore(tail, more);
      Associative([l], tail, LinksIn(more));
      assert links == [l] + tail;
    }
  }

  lemma {:induction false} EntriesWritable(links: seq<Link>)
    requires forall l | l in links :: Writable(Entry(l))
    ensures forall item | item in Entries(links) :: Writable(item)
    decreases |links|
  {
    hide Writable;
    if links != [] {
      assert links[0] in links;
      EntriesWritable(links[1..]);
    }
  }

  predicate WritableNode(n: Node) {
    (forall l | l in n.links :: Writable(Entry(l))) && (n.data.Some? ==> |n.data.value| < TWO_31)
  }

  /** Every size is shown as it is. */
  predicate SizesSmall(n: Node) {
    forall l | l in n.links :: l.tsize.Some? ==> l.tsize.value < TWO_31
  }

  lemma ItemsOfNode(n: Node, dataFirst: bool)
    ensures LinksIn(ItemsOf(n, dataFirst)) == n.links && DataIn(ItemsOf(n, dataFirst)) == n.data
    ensures WritableNode(n) ==> forall item | item in ItemsOf(n, dataFirst) :: Writable(item)
  {
    LinksThenMore(n.links, if dataFirst then [] else DataItem(n.data));
    if WritableNode(n) {
      EntriesWritable(n.links);
    }
    assert LinksIn([]) == [];
    if n.data.Some? {
      ItemsCons(Data(n.data.value), if dataFirst then Entries(n.links) else []);
      assert [Data(n.data.value)] + [] == DataItem(n.data);
    }
    assert Entries(n.links) + [] == Entries(n.links) == [] + Entries(n.links);
    assert n.links + [] == n.links == [] + n.links;
  }

  /** A link as its writer meant it. */
  function Meant(l: Link): PBLink {
    PBLink(l.hash, if l.name.Some? then l.name.value else [], if l.tsize.Some? then l.tsize.value else 0)
  }

  function MeantAll(ls: seq<Link>): seq<PBLink> {
    seq(|ls|, i requires 0 <= i < |ls| => Meant(ls[i]))
  }

  lemma ShownAsMeantIff(ls: seq<Link>)
    ensures ShownAll(ls) == MeantAll(ls) <==> forall l | l in ls :: l.tsize.Some? ==> l.tsize.value < TWO_31
  {
    hide ShownSize;
    forall i | 0 <= i < |ls|
      ensures Shown(ls[i]) == Meant(ls[i]) <==> (ls[i].tsize.Some? ==> ls[i].tsize.value < TWO_31)
    {
      if ls[i].tsize.Some? {
        SizeShownIff(ls[i].tsize.value);
      }
    }
    hide Shown, Meant;
    assert forall i | 0 <= i < |ls| ::
      ls[i] in ls && ShownAll(ls)[i] == Shown(ls[i]) && MeantAll(ls)[i] == Meant(ls[i]);
  }

  /**
   * A node serialised with its data before or after its links reads back with the same data and the
   * same links in order, exactly when all its sizes are below 2^31; above, only a size is shown wrong.
   */
  lemma NodeReadsBackIff(n: Node, dataFirst: bool)
    requires WritableNode(n)
    ensures NodeFrom(NO_NODE, Serialise(ItemsOf(n, dataFirst))) == Some(PBNode(ShownAll(n.links), n.data))
    ensures NodeFrom(NO_NODE, Serialise(ItemsOf(n, dataFirst))) == Some(PBNode(MeantAll(n.links), n.data))
            <==> SizesSmall(n)
  {
    hide NodeFrom, Serialise, ItemsOf, Writable, ShownAll, MeantAll;
    ItemsOfNode(n, dataFirst);
    ReadsItems(ItemsOf(n, dataFirst));
    ShownAsMeantIff(n.links);
  }

  /** A node for which it fails: a link of 2^31 bytes shows a size of -2^31. */
  lemma SizeShowsNegative(hash: Bytes, dataFirst: bool)
    requires |hash| < 100
    ensures var n := Node([Link(Some(hash), None, Some(TWO_31))], None);
            NodeFrom(NO_NODE, Serialise(ItemsOf(n, dataFirst)))
            == Some(PBNode([PBLink(Some(hash), [], -0x8000_0000)], None))
  {
    var l := Link(Some(hash), None, Some(TWO_31));
    var n := Node([l], None);
    hide NodeFrom, Serialise, ItemsOf, Varint, EncodeFields, ShownSize, Base128, Complete;
    assert |EncodeFields(LinkFields(l))| < TWO_31 by {
      ShortLink(l);
    }
    SizeShownIff(TWO_31);
    NodeReadsBackIff(n, dataFirst);
    assert ShownAll([l]) == [Shown(l)];
  }

  lemma ShortLink(l: Link)
    requires l.hash.Some? && |l.hash.value| < 100 && l.name.None? && l.tsize.Some? && l.tsize.value < TWO_64
    ensures |EncodeFields(LinkFields(l))| < TWO_31
  {
    hide Varint, Base128;
    var fs := LinkFields(l);
    Base128Complete(l.tsize.value, 10);
    VarintAtMostFive(8 * 1 + 2);
    VarintAtMostFive(|l.hash.value|);
    VarintAtMostFive(8 * 3);
    assert |fs| == 2 && fs[1..] == [fs[1]] && fs[1..][1..] == [];
    assert EncodeFields(fs[1..]) == EncodeField(fs[1]) + EncodeFields([]);
    assert EncodeFields(fs) == EncodeField(fs[0]) + EncodeFields(fs[1..]);
  }

  // ---------------------------------------------------------------- any fields of a link

  function LastBytes(fs: seq<Field>, num: nat): Option<Bytes> {
    if fs == [] then None
    else
      var f := fs[|fs| - 1];
      if f.LenField? && f.num == num then Some(f.payload) else LastBytes(fs[..|fs| - 1], num)
  }

  function LastSize(fs: seq<Field>): int {
    if fs == [] then 0
    else
      var f := fs[|fs| - 1];
      if f.VarintField? && f.num == 3 then Leading(f.raw).value else LastSize(fs[..|fs| - 1])
  }

  lemma {:induction false} LinkOfSnoc(l: PBLink, ts: seq<Token>, t: Token)
    ensures LinkOf(l, ts + [t]) == LinkAfter(LinkOf(l, ts), t)
    decreases |ts|
  {
    hide LinkAfter;
    if ts == [] {
      assert ([] + [t])[1..] == [];
      assert LinkOf(LinkAfter(l, t), []) == LinkAfter(l, t);
    } else {
      assert (ts + [t])[1..] == ts[1..] + [t];
      LinkOfSnoc(LinkAfter(l, ts[0]), ts[1..], t);
    }
  }

  lemma {:induction false} LinkOfFields(fs: seq<Field>)
    requires forall f | f in fs :: f.Valid()
    ensures LinkOf(NO_LINK, TokensOf(fs)) ==
            PBLink(LastBytes(fs, 1), if LastBytes(fs, 2).Some? then LastBytes(fs, 2).value else [], LastSize(fs))
    decreases |fs|
  {
    hide Leading, Complete;
    if fs != [] {
      var front, f := fs[..|fs| - 1], fs[|fs| - 1];
      assert f in fs;
      LinkOfFields(front);
      assert TokensOf(fs) == TokensOf(front) + [TokenOf(f)];
      LinkOfSnoc(NO_LINK, TokensOf(front), TokenOf(f));
    }
  }

  /** A link of any fields in any order, unknown ones among them, shows its last hash, name and size. */
  lemma LinkMeans(fs: seq<Field>)
    requires forall f | f in fs :: Consumed(LinkLevel, f)
    ensures LinkFrom(NO_LINK, EncodeFields(fs)) ==
            Some(PBLink(LastBytes(fs, 1), if LastBytes(fs, 2).Some? then LastBytes(fs, 2).value else [], LastSize(fs)))
  {
    assert forall f | f in fs :: f.Valid();
    hide Tokens, TokensOf, EncodeFields, LinkOf, LastBytes, LastSize, Consumed;
    TokensOfAll(LinkLevel, fs);
    LinkOfFields(fs);
  }
}
