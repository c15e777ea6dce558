/** What the record parser promises: it inverts the writer, it tiles the record, and where it reads beyond it. */
module VcrdProperties {
  import opened Bytes
  import opened Results
  import opened Wire
  import opened Vault
  import opened Vcrd

  // ---------- Writing a record ----------

  /** A map entry and the bytes it points to. */
  datatype Slot = Slot(mapId: u32, unknown1: u32, stored: bytes)

  type prefix36 = b: bytes | |b| == 36 witness Zeros(36)

  function StoredBytes(ss: seq<Slot>): bytes {
    if ss == [] then [] else ss[0].stored + StoredBytes(ss[1..])
  }

  /** The map of attributes that are stored from `at` on. */
  function MapBytes(ss: seq<Slot>, at: nat): (r: bytes)
    requires at + |StoredBytes(ss)| < 0x1_0000_0000
    ensures |r| == 12 * |ss|
  {
    if ss == [] then []
    else Le32(ss[0].mapId) + Le32(at) + Le32(ss[0].unknown1) + MapBytes(ss[1..], at + |ss[0].stored|)
  }

  /** Where the first attribute stands. */
  function Base(name: field, count: nat): nat {
    36 + 4 + |name| + 4 + 12 * count
  }

  /** All positions of the record fit an offset. */
  predicate Writable(name: field, ss: seq<Slot>) {
    Base(name, |ss|) + |StoredBytes(ss)| < 0x1_0000_0000
  }

  function WriteVcrd(prefix: prefix36, name: field, ss: seq<Slot>): bytes
    requires Writable(name, ss)
  {
    prefix + (Prefixed(name) + (Le32(12 * |ss|) + (MapBytes(ss, Base(name, |ss|)) + StoredBytes(ss))))
  }

  /** What parses of the stored attributes, under their map identifiers, in order. */
  function Parsed(ss: seq<Slot>): seq<VcrdAttribute> {
    if ss == [] then [] else AttributeAt(ss[0].mapId, ss[0].stored) + Parsed(ss[1..])
  }

  function Offsets(ss: seq<Slot>, at: nat): (os: seq<MapEntry>)
    requires at + |StoredBytes(ss)| < 0x1_0000_0000
    ensures |os| == |ss|
    ensures |ss| > 0 ==> os[0].offset == at
  {
    if ss == [] then [] else [MapEntry(ss[0].mapId, at)] + Offsets(ss[1..], at + |ss[0].stored|)
  }

  lemma {:induction false} MapEntriesOfWrite(v: bytes, pre: bytes, ss: seq<Slot>, at: nat, t: bytes)
    requires at + |StoredBytes(ss)| < 0x1_0000_0000
    requires v == pre + MapBytes(ss, at) + t
    ensures MapEntries(v, |pre|, |ss|) == Offsets(ss, at)
    decreases |ss|
  {
    if ss != [] {
      var at' := at + |ss[0].stored|;
      var pre' := OneEntry(v, pre, ss[0].mapId, at, ss[0].unknown1, MapBytes(ss[1..], at'), t);
      MapEntriesOfWrite(v, pre', ss[1..], at', t);
    }
  }

  /** One written map entry is read back, and the rest stands behind it. */
  lemma OneEntry(v: bytes, pre: bytes, id: u32, at: u32, unknown1: u32, rest: bytes, t: bytes) returns (pre': bytes)
    requires v == pre + (Le32(id) + Le32(at) + Le32(unknown1) + rest) + t
    ensures |pre'| == |pre| + 12 && v == pre' + rest + t
    ensures U32At(v, |pre|) == id && U32At(v, |pre| + 4) == at
  {
    var a, b, c := Le32(id), Le32(at), Le32(unknown1);
    assert v == pre + a + (b + (c + (rest + t)));
    U32AtPut(pre, id, b + (c + (rest + t)));
    assert v == (pre + a) + b + (c + (rest + t));
    U32AtPut(pre + a, at, c + (rest + t));
    pre' := pre + a + b + c;
  }

  lemma {:induction false} CollectOfWrite(v: bytes, pre: bytes, ss: seq<Slot>)
    requires |pre| + |StoredBytes(ss)| < 0x1_0000_0000
    requires v == pre + StoredBytes(ss)
    ensures Collect(v, Offsets(ss, |pre|)) == Ok(Parsed(ss))
    decreases |ss|
  {
    if ss != [] {
      var w := ss[0].stored;
      var os := Offsets(ss, |pre|);
      assert v == (pre + w) + StoredBytes(ss[1..]);
      CollectOfWrite(v, pre + w, ss[1..]);
      assert os[1..] == Offsets(ss[1..], |pre + w|);
      assert EndOf(os, 0, |v|) == |pre| + |w|;
      assert v[|pre|..|pre| + |w|] == w;
    }
  }

  /** Parsing inverts writing, for any stored attributes, any friendly name and any header. */
  lemma ParseOfWriteVcrd(prefix: prefix36, name: field, ss: seq<Slot>)
    requires Writable(name, ss)
    ensures ParseVcrd(WriteVcrd(prefix, name, ss)) == Ok(Parsed(ss))
  {
    var entries, stored := MapBytes(ss, Base(name, |ss|)), StoredBytes(ss);
    var pre := prefix + Prefixed(name) + Le32(12 * |ss|);
    HeaderOfWrite(prefix, name, 12 * |ss|, entries + stored);
    Regroup(prefix, Prefixed(name), Le32(12 * |ss|), entries + stored);
    Associates(pre, entries, stored);
    CollectOfParts(WriteVcrd(prefix, name, ss), pre, entries, ss);
    ParseFromMap(WriteVcrd(prefix, name, ss), |pre|, |ss|);
  }

  /** A record that is a header, the map of `ss` and the stored bytes of `ss`. */
  lemma CollectOfParts(v: bytes, pre: bytes, entries: bytes, ss: seq<Slot>)
    requires |pre| + |entries| + |StoredBytes(ss)| < 0x1_0000_0000 && |entries| == 12 * |ss|
    requires entries == MapBytes(ss, |pre| + |entries|)
    requires v == pre + entries + StoredBytes(ss)
    ensures Collect(v, MapEntries(v, |pre|, |ss|)) == Ok(Parsed(ss))
  {
    MapEntriesOfWrite(v, pre, ss, |pre| + |entries|, StoredBytes(ss));
    CollectOfWrite(v, pre + entries, ss);
  }

  lemma ParseFromMap(v: bytes, start: nat, count: nat)
    requires 12 * count < 0x1_0000_0000 && MapHeader(v) == Ok((start, 12 * count))
    ensures ParseVcrd(v) == Collect(v, MapEntries(v, start, count))
  {
    WholeEntries(count);
  }

  lemma WholeEntries(count: nat)
    ensures (12 * count) % MAP_ENTRY == 0 && (12 * count) / MAP_ENTRY == count
  {
  }

  lemma Regroup(a: bytes, b: bytes, c: bytes, d: bytes)
    ensures a + (b + (c + d)) == (a + b + c) + d
  {
  }

  lemma HeaderOfWrite(prefix: prefix36, name: field, size: u32, t: bytes)
    ensures MapHeader(prefix + (Prefixed(name) + (Le32(size) + t))) == Ok((36 + 4 + |name| + 4, size))
  {
    TakeBytesPut(prefix, Prefixed(name) + (Le32(size) + t));
    TakePrefixedPut(name, Le32(size) + t);
    Regroup(prefix, Prefixed(name), Le32(size), t);
    U32AtPut(prefix + Prefixed(name), size, t);
  }

  /**
   A record has a map header exactly when 36 bytes and a length-prefixed name stand at its front;
   the size behind them is read as 0 when its four bytes are not all there.
   */
  lemma MapHeaderExact(v: bytes, start: nat, size: u32)
    ensures MapHeader(v) == Ok((start, size)) <==>
            exists prefix: prefix36, name: field, t: bytes ::
              && v == prefix + (Prefixed(name) + t) && start == 36 + 4 + |name| + 4
              && if |t| < 4 then size == 0 else Le32(size) == t[..4]
  {
    if MapHeader(v) == Ok((start, size)) {
      var (prefix, s) := TakeBytes(v, 36).value;
      var (name, t) := TakePrefixed(s).value;
      SizeBehind(v, prefix, name, t);
    }
    forall prefix: prefix36, name: field, t: bytes |
      && v == prefix + (Prefixed(name) + t) && start == 36 + 4 + |name| + 4
      && if |t| < 4 then size == 0 else Le32(size) == t[..4]
      ensures MapHeader(v) == Ok((start, size))
    {
      TakeBytesPut(prefix, Prefixed(name) + t);
      TakePrefixedPut(name, t);
      SizeBehind(v, prefix, name, t);
      U32AtExact(v, 40 + |name|, size);
    }
  }

  lemma SizeBehind(v: bytes, prefix: prefix36, name: field, t: bytes)
    requires v == prefix + (Prefixed(name) + t)
    ensures if |t| < 4 then U32At(v, 40 + |name|) == 0 else Le32(U32At(v, 40 + |name|)) == t[..4]
  {
    hide Le;
    var pos := 40 + |name|;
    assert v == (prefix + Prefixed(name)) + t && |prefix + Prefixed(name)| == pos;
    assert v[pos..] == t;
    U32AtExact(v, pos, U32At(v, pos));
    if |t| >= 4 {
      assert v[pos..pos + 4] == v[pos..][..4];
    }
  }

  // ---------- Writing attributes ----------

  /** An attribute and the map entry that points to it; the two carry an identifier each. */
  datatype Entry = Entry(mapId: u32, unknown1: u32, attr: Attr)

  predicate AllValid(es: seq<Entry>) {
    forall i :: 0 <= i < |es| ==> es[i].attr.Valid()
  }

  predicate AllUnambiguous(es: seq<Entry>) {
    forall i :: 0 <= i < |es| ==> !Ambiguous(es[i].attr)
  }

  function Encode(es: seq<Entry>): seq<Slot>
    requires AllValid(es)
  {
    if es == [] then [] else [Slot(es[0].mapId, es[0].unknown1, WriteAttr(es[0].attr))] + Encode(es[1..])
  }

  /** All attributes of more than 28 bytes, under their map identifiers, in order. */
  function Expected(es: seq<Entry>): seq<VcrdAttribute>
    requires AllValid(es)
  {
    if es == [] then []
    else
      var a := es[0].attr;
      (if |WriteAttr(a)| > 28 then [VcrdAttribute(es[0].mapId, a.Iv(), a.data)] else []) + Expected(es[1..])
  }

  lemma {:induction false} ParsedOfEncode(es: seq<Entry>)
    requires AllValid(es) && AllUnambiguous(es)
    ensures Parsed(Encode(es)) == Expected(es)
  {
    if es != [] {
      PayloadOfWrite(es[0].attr);
      ParsedOfEncode(es[1..]);
      assert Encode(es)[1..] == Encode(es[1..]);
    }
  }

  /**
   For every list of unambiguously padded attributes, those of more than 28 bytes come back with
   their identifiers, IVs and data, in order.
   */
  lemma AttributesRoundTrip(prefix: prefix36, name: field, es: seq<Entry>)
    requires AllValid(es) && AllUnambiguous(es) && Writable(name, Encode(es))
    ensures ParseVcrd(WriteVcrd(prefix, name, Encode(es))) == Ok(Expected(es))
  {
    ParseOfWriteVcrd(prefix, name, Encode(es));
    ParsedOfEncode(es);
  }

  // ---------- Tiling ----------

  /** Every attribute begins no later than it ends, and ends within the record. */
  predicate Ordered(es: seq<MapEntry>, length: nat) {
    forall i :: 0 <= i < |es| ==> es[i].offset <= EndOf(es, i, length) <= length
  }

  function Slices(v: bytes, es: seq<MapEntry>): (r: seq<bytes>)
    requires Ordered(es, |v|)
    ensures |r| == |es|
    ensures forall i :: 0 <= i < |es| ==> r[i] == v[es[i].offset..EndOf(es, i, |v|)]
  {
    seq(|es|, i requires 0 <= i < |es| => v[es[i].offset..EndOf(es, i, |v|)])
  }

  function Join<T>(parts: seq<seq<T>>): seq<T> {
    if parts == [] then [] else parts[0] + Join(parts[1..])
  }

  /** The entries whose slice has a payload, in order. */
  function Kept(es: seq<MapEntry>, slices: seq<bytes>): seq<VcrdAttribute>
    requires |es| == |slices|
  {
    if es == [] then [] else AttributeAt(es[0].id, slices[0]) + Kept(es[1..], slices[1..])
  }

  lemma OrderedTail(es: seq<MapEntry>, length: nat)
    requires es != []
    ensures Ordered(es, length) <==> es[0].offset <= EndOf(es, 0, length) <= length && Ordered(es[1..], length)
  {
    var tail := es[1..];
    forall i | 0 <= i < |tail|
      ensures EndOf(tail, i, length) == EndOf(es, i + 1, length) && tail[i].offset == es[i + 1].offset
    {
    }
    if Ordered(tail, length) && es[0].offset <= EndOf(es, 0, length) <= length {
      forall i | 0 <= i < |es|
        ensures es[i].offset <= EndOf(es, i, length) <= length
      {
        if i > 0 {
          assert tail[i - 1].offset <= EndOf(tail, i - 1, length) <= length;
        }
      }
    }
  }

  /** The collection succeeds exactly on ordered maps, and then keeps what parses of the slices. */
  lemma {:induction false} CollectKept(v: bytes, es: seq<MapEntry>)
    ensures Collect(v, es).Ok? <==> Ordered(es, |v|)
    ensures Ordered(es, |v|) ==> Collect(v, es) == Ok(Kept(es, Slices(v, es)))
  {
    if es != [] {
      OrderedTail(es, |v|);
      CollectKept(v, es[1..]);
      if Ordered(es, |v|) {
        SlicesTail(v, es);
      }
    }
  }

  /** What a map entry contributes: the attribute that its slice was written from, or nothing if there is none. */
  ghost predicate Contributes(id: u32, slice: bytes, part: seq<VcrdAttribute>) {
    || (part == [] && forall a :: !Stores(slice, a))
    || exists a :: Stores(slice, a) && part == [VcrdAttribute(id, a.Iv(), a.data)]
  }

  lemma ContributesExact(id: u32, slice: bytes, part: seq<VcrdAttribute>)
    ensures Contributes(id, slice, part) <==> part == AttributeAt(id, slice)
  {
    hide AttributePayload, Stores;
    if AttributePayload(slice).Some? {
      var (iv, data) := AttributePayload(slice).value;
      PayloadExact(slice, iv, data);
    }
    forall a | Stores(slice, a)
      ensures AttributePayload(slice) == Some((a.Iv(), a.data))
    {
      PayloadExact(slice, a.Iv(), a.data);
    }
  }

  /** `attrs` are the contributions of all entries, in map order. */
  ghost predicate Reads(es: seq<MapEntry>, slices: seq<bytes>, attrs: seq<VcrdAttribute>)
    requires |es| == |slices|
  {
    exists parts: seq<seq<VcrdAttribute>> :: AllContribute(es, slices, parts) && attrs == Join(parts)
  }

  ghost predicate AllContribute(es: seq<MapEntry>, slices: seq<bytes>, parts: seq<seq<VcrdAttribute>>)
    requires |es| == |slices|
  {
    |parts| == |es| && forall i :: 0 <= i < |es| ==> Contributes(es[i].id, slices[i], parts[i])
  }

  lemma KeptExact(es: seq<MapEntry>, slices: seq<bytes>, attrs: seq<VcrdAttribute>)
    requires |es| == |slices|
    ensures Reads(es, slices, attrs) <==> attrs == Kept(es, slices)
  {
    hide Contributes;
    var parts := KeptParts(es, slices);
    forall parts | AllContribute(es, slices, parts)
      ensures Join(parts) == Kept(es, slices)
    {
      ContributionsJoin(es, slices, parts);
    }
  }

  lemma KeptParts(es: seq<MapEntry>, slices: seq<bytes>) returns (parts: seq<seq<VcrdAttribute>>)
    requires |es| == |slices|
    ensures AllContribute(es, slices, parts)
  {
    parts := seq(|es|, i requires 0 <= i < |es| => AttributeAt(es[i].id, slices[i]));
    forall i | 0 <= i < |es|
      ensures Contributes(es[i].id, slices[i], parts[i])
    {
      ContributesExact(es[i].id, slices[i], parts[i]);
    }
  }

  lemma {:induction false} ContributionsJoin(es: seq<MapEntry>, slices: seq<bytes>, parts: seq<seq<VcrdAttribute>>)
    requires |es| == |slices| && AllContribute(es, slices, parts)
    ensures Join(parts) == Kept(es, slices)
    decreases |es|
  {
    if es != [] {
      ContributesExact(es[0].id, slices[0], parts[0]);
      ContributionsJoin(es[1..], slices[1..], parts[1..]);
    }
  }

  /**
   The collection gives `attrs` exactly when the map is ordered and they are, in map order, the
   attributes that the slices were written from.
   */
  lemma CollectExact(v: bytes, es: seq<MapEntry>, attrs: seq<VcrdAttribute>)
    ensures Collect(v, es) == Ok(attrs) <==> Ordered(es, |v|) && Reads(es, Slices(v, es), attrs)
  {
    CollectKept(v, es);
    if Ordered(es, |v|) {
      KeptExact(es, Slices(v, es), attrs);
    }
  }

  lemma SlicesTail(v: bytes, es: seq<MapEntry>)
    requires es != [] && Ordered(es, |v|)
    ensures Ordered(es[1..], |v|) && Slices(v, es)[1..] == Slices(v, es[1..])
  {
    OrderedTail(es, |v|);
    var a, b := Slices(v, es)[1..], Slices(v, es[1..]);
    forall i | 0 <= i < |b|
      ensures a[i] == b[i]
    {
      assert EndOf(es[1..], i, |v|) == EndOf(es, i + 1, |v|);
    }
  }

  lemma {:induction false} SlicesJoin(v: bytes, es: seq<MapEntry>)
    requires es != [] && Ordered(es, |v|)
    ensures es[0].offset <= |v| && Join(Slices(v, es)) == v[es[0].offset..]
    decreases |es|
  {
    var parts := Slices(v, es);
    SlicesTail(v, es);
    if |es| == 1 {
      assert parts[1..] == [];
      assert parts[0] + [] == parts[0];
    } else {
      SlicesJoin(v, es[1..]);
      assert v[es[0].offset..] == v[es[0].offset..es[1].offset] + v[es[1].offset..];
    }
  }

  lemma {:induction false} OrderedPairs(es: seq<MapEntry>, length: nat, i: nat, j: nat)
    requires Ordered(es, length) && i <= j < |es|
    ensures es[i].offset <= es[j].offset <= length
    decreases j - i
  {
    assert es[i].offset <= EndOf(es, i, length) <= length;
    if i < j {
      OrderedPairs(es, length, i + 1, j);
    }
  }

  /** The map the parser uses. */
  function MapOf(v: bytes): seq<MapEntry>
    requires MapHeader(v).Ok?
  {
    var (start, size) := MapHeader(v).value;
    MapEntries(v, start, size / MAP_ENTRY)
  }

  /** The header names a map of whole entries, it is ordered, and its slices were written from `attrs`. */
  ghost predicate HoldsAttributes(v: bytes, attrs: seq<VcrdAttribute>) {
    && MapHeader(v).Ok? && MapHeader(v).value.1 % MAP_ENTRY == 0
    && Ordered(MapOf(v), |v|) && Reads(MapOf(v), Slices(v, MapOf(v)), attrs)
  }

  /** A record parses to `attrs` exactly when it holds them. */
  lemma RecordExact(v: bytes, attrs: seq<VcrdAttribute>)
    ensures ParseVcrd(v) == Ok(attrs) <==> HoldsAttributes(v, attrs)
  {
    hide Reads, MapEntries;
    if MapHeader(v).Ok? {
      CollectExact(v, MapOf(v), attrs);
    }
  }

  /**
   On every successful parse the offsets are non-decreasing and within the record, the attribute
   slices tile the record from the first offset to its end, and the result is, in map order, the
   attributes that they were written from.
   */
  lemma ParsedRecordTiles(v: bytes)
    requires ParseVcrd(v).Ok?
    ensures var es := MapOf(v);
            && (forall i, j :: 0 <= i <= j < |es| ==> es[i].offset <= es[j].offset <= |v|)
            && Ordered(es, |v|)
            && Reads(es, Slices(v, es), ParseVcrd(v).value)
            && (es != [] ==> Join(Slices(v, es)) == v[es[0].offset..])
  {
    var es := MapOf(v);
    CollectExact(v, es, ParseVcrd(v).value);
    forall i, j | 0 <= i <= j < |es|
      ensures es[i].offset <= es[j].offset <= |v|
    {
      OrderedPairs(es, |v|, i, j);
    }
    if es != [] {
      SlicesJoin(v, es);
    }
  }

  // ---------- The map beyond the record ----------

  /** The last offset of the map does not lie inside the record. */
  predicate MapOverruns(v: bytes) {
    && MapHeader(v).Ok?
    && MapHeader(v).value.1 > 0 && MapHeader(v).value.1 % MAP_ENTRY == 0
    && MapHeader(v).value.0 + MapHeader(v).value.1 - 4 > |v|
  }

  /**
   The fallback can reach a result. A record whose map overruns it is not refused as truncated:
   it is accepted exactly when every offset that was read is 0, and then the only attribute looked
   at is the whole record itself.
   */
  lemma OverrunExact(v: bytes)
    requires MapOverruns(v)
    ensures var es := MapOf(v);
            && (ParseVcrd(v).Ok? <==> forall i :: 0 <= i < |es| ==> es[i].offset == 0)
            && (ParseVcrd(v).Ok? ==> ParseVcrd(v) == Ok(AttributeAt(es[|es| - 1].id, v)))
  {
    var (start, size) := MapHeader(v).value;
    var es := MapOf(v);
    var last := |es| - 1;
    assert size == 12 * |es|;
    assert es[last].offset == 0;
    CollectKept(v, es);
    if Ordered(es, |v|) {
      forall i | 0 <= i < |es|
        ensures es[i].offset == 0
      {
        OrderedPairs(es, |v|, i, last);
      }
    }
    if forall i :: 0 <= i < |es| ==> es[i].offset == 0 {
      assert Ordered(es, |v|);
      OnlyTheLast(v, es);
    }
  }

  /** With every offset 0, all slices but the last are empty. */
  lemma {:induction false} OnlyTheLast(v: bytes, es: seq<MapEntry>)
    requires es != [] && Ordered(es, |v|) && forall i :: 0 <= i < |es| ==> es[i].offset == 0
    ensures Kept(es, Slices(v, es)) == AttributeAt(es[|es| - 1].id, v)
    decreases |es|
  {
    SlicesTail(v, es);
    if |es| == 1 {
      assert v[0..|v|] == v;
      assert Slices(v, es)[1..] == [];
    } else {
      OnlyTheLast(v, es[1..]);
      assert Slices(v, es)[0] == [];
    }
  }

  /** The record ends before the size of its map does. */
  predicate MapSizeMissing(v: bytes) {
    MapHeader(v).Ok? && MapHeader(v).value.0 > |v|
  }

  predicate AllOffsetsZero(v: bytes)
    requires MapHeader(v).Ok?
  {
    var es := MapOf(v);
    forall i :: 0 <= i < |es| ==> es[i].offset == 0
  }

  /** A parser that refuses records whose map size, identifiers or offsets do not lie inside them. */
  function StrictVcrd(v: bytes): Result<seq<VcrdAttribute>> {
    var (start, size) :- MapHeader(v);
    if start > |v| || size % MAP_ENTRY != 0 then Err(TooShort)
    else if size > 0 && start + size - 4 > |v| then Err(TooShort)
    else Collect(v, MapEntries(v, start, size / MAP_ENTRY))
  }

  /**
   The code is this strict parser except on two families of records, which it accepts: those that
   end before the size of the map, and those that end before its last offset while every offset
   they do hold is 0.
   */
  lemma StrictExact(v: bytes)
    ensures ParseVcrd(v) == StrictVcrd(v) <==>
            !(MapSizeMissing(v) || (MapOverruns(v) && AllOffsetsZero(v)))
  {
    if MapSizeMissing(v) {
      assert ParseVcrd(v) == Ok([]);
    } else if MapOverruns(v) {
      OverrunExact(v);
    }
  }

  /** A record of 44 bytes, all header: the size of a map of one entry is there, the entry is not. */
  function HeaderOnlyAttr(): Attr {
    Attr(0, 0, 0, 0, true, 0, NoIv(0), [], Zeros(9) + [12, 0, 0, 0])
  }

  /** From a record that holds no attribute at all the parser reports one. */
  lemma FabricatedAttribute()
    ensures var v := WriteAttr(HeaderOnlyAttr());
            MapOverruns(v) && ParseVcrd(v) == Ok([VcrdAttribute(0, [], [])])
  {
    var a := HeaderOnlyAttr();
    var v := WriteAttr(a);
    FabricatedBytes();
    HeaderOfWrite(v[..36], [], 12, []);
    OverrunExact(v);
    PayloadOfWrite(a);
  }

  lemma FabricatedBytes()
    ensures var v := WriteAttr(HeaderOnlyAttr());
            |v| == 44 && v == v[..36] + (Prefixed([]) + (Le32(12) + []))
  {
    var a := HeaderOnlyAttr();
    var v := WriteAttr(a);
    FourBytes(12);
    FourBytes(0);
    assert v == (FixedPart(a) + Zeros(6) + Le32(1) + [0] + Le32(0)) + a.slack;
    assert a.slack[5..] == Le32(0) + Le32(12);
  }

  lemma FourBytes(n: byte)
    ensures Le32(n) == [n, 0, 0, 0]
  {
    assert Le(n, 4) == [n] + Le(0, 3);
    assert Le(0, 3) == [0, 0, 0];
  }
}
