/**
 The decoder as it runs: a cursor (position and remaining size) over the whole memory. Nothing is checked against the
 size of an archive; only a string looks at it. A struct field leaves the size of its archive stale.
 */
module ArchiveCursor {
  import opened Bytes
  import opened AutoSize
  import opened SerialTypes
  import SerialRoundTrip

  /** `ia.data` as an offset, and `ia.size`, a `size_t` whose subtraction wraps around. */
  datatype Cursor = Cursor(pos: nat, size: nat) {
    function Advance(n: nat): Cursor {
      Cursor(pos + n, (size - n) % WORD64)
    }
  }

  type Read = Option<(Value, Cursor)>

  /** The auto-sized integer at `pos`; `None` where the read would leave the memory. */
  function ReadAuto(signed: bool, buf: bytes, pos: nat): Option<(int, nat)> {
    if pos > |buf| then None else Decode(signed, buf[pos..])
  }

  function ReadValue(t: Ty, buf: bytes, c: Cursor): Read
    decreases t, 0
  {
    match t
    case Raw(size) => if c.pos + size <= |buf| then Some((VRaw(buf[c.pos..c.pos + size]), c.Advance(size))) else None
    case AutoInt(signed, wide) => ReadInt(signed, wide, buf, c)
    case Str(width) =>
      if width == 0 || c.pos + WholeChars(c.size, width) > |buf| then None
      else Some((VStr(buf[c.pos..c.pos + WholeChars(c.size, width)]), c))
    case List(e) => ReadContainer(e, buf, c, true, false)
    case ForwardList(e) => ReadContainer(e, buf, c, true, false)
    case Set(e, multi) => ReadContainer(e, buf, c, multi, false)
    case Map(e, multi) => ReadContainer(e, buf, c, multi, true)
    case Optional(e) =>
      if c.pos >= |buf| then None
      else if buf[c.pos] == 0 then Some((VNone, c.Advance(1)))
      else
        (match ReadValue(e, buf, c.Advance(1))
         case None => None
         case Some((v, c')) => Some((VSome(v), c')))
    case Tuple(ts) => ReadFields(ts, buf, c, false)
    case Struct(ts) => ReadFields(ts, buf, c, true)
    case Ignore => Some((VIgnored, c))
  }

  function ReadInt(signed: bool, wide: bool, buf: bytes, c: Cursor): Read {
    match ReadAuto(signed, buf, c.pos)
    case None => None
    case Some((i, cost)) => Some((VInt(Narrow(signed, wide, i)), c.Advance(cost)))
  }

  function ReadContainer(e: Ty, buf: bytes, c: Cursor, multi: bool, keyed: bool): Read
    decreases e, 4
  {
    match ReadAuto(false, buf, c.pos)
    case None => None
    case Some((n, cost)) =>
      match ReadItems(e, buf, c.Advance(cost), n)
      case None => None
      case Some((vs, c')) => Some((VItems(EmplaceAll(multi, keyed, vs)), c'))
  }

  function ReadItems(e: Ty, buf: bytes, c: Cursor, n: nat): (r: Option<(seq<Value>, Cursor)>)
    decreases e, 3, n
  {
    if n == 0 then Some(([], c))
    else
      match ReadItems(e, buf, c, n - 1)
      case None => None
      case Some((vs, c')) =>
        match ReadItem(e, buf, c', false)
        case None => None
        case Some((v, c'')) => Some((vs + [v], c''))
  }

  /**
   An element or field. One that is not fundamental is decoded through a cursor of its own; the enclosing cursor moves
   behind it, and its size shrinks too unless the field belongs to a struct.
   */
  function ReadItem(e: Ty, buf: bytes, c: Cursor, inStruct: bool): Read
    decreases e, 2
  {
    if Fundamental(e) || e.Ignore? then ReadValue(e, buf, c)
    else
      match ReadAuto(false, buf, c.pos)
      case None => None
      case Some((len, cost)) =>
        match ReadValue(e, buf, Cursor(c.pos + cost, len))
        case None => None
        case Some((v, _)) => Some((v, if inStruct then Cursor(c.pos + cost + len, c.size) else c.Advance(cost + len)))
  }

  function ReadFields(ts: seq<Ty>, buf: bytes, c: Cursor, inStruct: bool): (r: Read)
    ensures r.Some? ==> r.value.0.VFields?
    decreases ts, 1
  {
    if ts == [] then Some((VFields([]), c))
    else
      match ReadFields(Init(ts), buf, c, inStruct)
      case None => None
      case Some((vs, c')) =>
        match ReadItem(Last(ts), buf, c', inStruct)
        case None => None
        case Some((v, c'')) => Some((VFields(vs.fields + [v]), c''))
  }

  // ---- The size is never consulted where it may be stale ----

  /** The same value at the same place, whatever the sizes. */
  ghost predicate SamePlace<V>(r: Option<(V, Cursor)>, r': Option<(V, Cursor)>) {
    r.Some? == r'.Some? && (r.Some? ==> r.value.0 == r'.value.0 && r.value.1.pos == r'.value.1.pos)
  }

  /** Reading a self-delimiting type does not depend on the size, in any memory. */
  lemma {:induction false} SizeIrrelevant(t: Ty, buf: bytes, pos: nat, size: nat, size': nat)
    requires SelfDelimiting(t)
    ensures SamePlace(ReadValue(t, buf, Cursor(pos, size)), ReadValue(t, buf, Cursor(pos, size')))
    decreases t, 0
  {
    hide Decode;
    var c, c' := Cursor(pos, size), Cursor(pos, size');
    match t
    case Raw(_) =>
    case AutoInt(_, _) =>
    case Str(_) =>
    case List(e) => ContainerSizeIrrelevant(e, buf, c, c', true, false);
    case ForwardList(e) => ContainerSizeIrrelevant(e, buf, c, c', true, false);
    case Set(e, multi) => ContainerSizeIrrelevant(e, buf, c, c', multi, false);
    case Map(e, multi) => ContainerSizeIrrelevant(e, buf, c, c', multi, true);
    case Optional(e) => SizeIrrelevant(e, buf, pos + 1, c.Advance(1).size, c'.Advance(1).size);
    case Tuple(ts) => FieldsSizeIrrelevant(ts, buf, c, c', false);
    case Struct(ts) => FieldsSizeIrrelevant(ts, buf, c, c', true);
    case Ignore =>
  }

  lemma {:induction false} ContainerSizeIrrelevant(e: Ty, buf: bytes, c: Cursor, c': Cursor, multi: bool, keyed: bool)
    requires c.pos == c'.pos
    ensures SamePlace(ReadContainer(e, buf, c, multi, keyed), ReadContainer(e, buf, c', multi, keyed))
    decreases e, 4
  {
    hide Decode, EmplaceAll;
    var head := ReadAuto(false, buf, c.pos);
    if head.Some? {
      ItemsSizeIrrelevant(e, buf, c.Advance(head.value.1), c'.Advance(head.value.1), head.value.0);
    }
  }

  lemma {:induction false} ItemsSizeIrrelevant(e: Ty, buf: bytes, c: Cursor, c': Cursor, n: nat)
    requires c.pos == c'.pos
    ensures SamePlace(ReadItems(e, buf, c, n), ReadItems(e, buf, c', n))
    decreases e, 3, n
  {
    hide Decode, ReadItem;
    if n > 0 {
      ItemsSizeIrrelevant(e, buf, c, c', n - 1);
      var r, r' := ReadItems(e, buf, c, n - 1), ReadItems(e, buf, c', n - 1);
      if r.Some? {
        ItemSizeIrrelevant(e, buf, r.value.1, r'.value.1, false);
      }
    }
  }

  lemma {:induction false} ItemSizeIrrelevant(e: Ty, buf: bytes, c: Cursor, c': Cursor, inStruct: bool)
    requires c.pos == c'.pos
    ensures SamePlace(ReadItem(e, buf, c, inStruct), ReadItem(e, buf, c', inStruct))
    decreases e, 2
  {
    hide Decode;
    if Fundamental(e) || e.Ignore? {
      SizeIrrelevant(e, buf, c.pos, c.size, c'.size);
    }
  }

  lemma {:induction false} FieldsSizeIrrelevant(ts: seq<Ty>, buf: bytes, c: Cursor, c': Cursor, inStruct: bool)
    requires c.pos == c'.pos
    ensures SamePlace(ReadFields(ts, buf, c, inStruct), ReadFields(ts, buf, c', inStruct))
    decreases ts, 1
  {
    hide Decode, ReadItem;
    if ts != [] {
      FieldsSizeIrrelevant(Init(ts), buf, c, c', inStruct);
      var r, r' := ReadFields(Init(ts), buf, c, inStruct), ReadFields(Init(ts), buf, c', inStruct);
      if r.Some? {
        ItemSizeIrrelevant(Last(ts), buf, r.value.1, r'.value.1, inStruct);
      }
    }
  }

  // ---- On a well-formed archive the cursor agrees with the slices ----

  /** The archive of `n` bytes at `pos`. */
  function Slice(buf: bytes, pos: nat, n: nat): (s: bytes)
    requires pos + n <= |buf|
  {
    buf[pos..pos + n]
  }

  /** `r` reads what was parsed; a self-delimiting type also leaves the cursor behind it. */
  ghost predicate Agrees<V>(r: Option<(V, Cursor)>, pos: nat, p: Option<(V, nat)>, delimited: bool) {
    p.Some? ==> r.Some? && r.value.0 == p.value.0 && (delimited ==> r.value.1.pos == pos + p.value.1)
  }

  /**
   Refinement. Wherever an archive of `n` bytes lies in memory, if it parses, the cursor reads the same value, provided
   the size is exact or the type does not look at it.
   */
  lemma {:induction false} CursorRefines(t: Ty, buf: bytes, c: Cursor, n: nat)
    requires c.pos + n <= |buf| && n < WORD64
    requires SelfDelimiting(t) || c.size == n
    ensures Agrees(ReadValue(t, buf, c), c.pos, Parse(t, Slice(buf, c.pos, n)), SelfDelimiting(t))
    decreases t, 0
  {
    hide Decode, ReadContainer, ParseContainer, ReadFields, ParseFields, ReadInt, ParseInt, WholeChars, Slice;
    match t
    case Raw(size) => RawRefines(size, buf, c, n);
    case AutoInt(signed, wide) => IntRefines(signed, wide, buf, c, n);
    case Str(width) => StrRefines(width, buf, c, n);
    case List(e) => ContainerRefines(e, buf, c, n, true, false);
    case ForwardList(e) => ContainerRefines(e, buf, c, n, true, false);
    case Set(e, multi) => ContainerRefines(e, buf, c, n, multi, false);
    case Map(e, multi) => ContainerRefines(e, buf, c, n, multi, true);
    case Optional(e) => OptionalRefines(e, buf, c, n);
    case Tuple(ts) => FieldsRefine(ts, buf, c, n, false);
    case Struct(ts) => FieldsRefine(ts, buf, c, n, true);
    case Ignore =>
  }

  lemma {:induction false} OptionalRefines(e: Ty, buf: bytes, c: Cursor, n: nat)
    requires c.pos + n <= |buf| && n < WORD64
    requires SelfDelimiting(e) || c.size == n
    ensures Agrees(ReadValue(Optional(e), buf, c), c.pos, Parse(Optional(e), Slice(buf, c.pos, n)), SelfDelimiting(e))
    decreases e, 5
  {
    hide Decode, ReadContainer, ParseContainer, ReadFields, ParseFields, ReadInt, ParseInt, WholeChars, Slice, Typed;
    SliceLength(buf, c.pos, n);
    if n > 0 {
      Behind(buf, c.pos, n, 1);
      CursorRefines(e, buf, c.Advance(1), n - 1);
    }
  }

  lemma IntRefines(signed: bool, wide: bool, buf: bytes, c: Cursor, n: nat)
    requires c.pos + n <= |buf|
    ensures Agrees(ReadInt(signed, wide, buf, c), c.pos, ParseInt(signed, wide, Slice(buf, c.pos, n)), true)
  {
    hide Decode, Narrow, Slice;
    AutoRefines(signed, buf, c.pos, n);
  }

  lemma RawRefines(size: nat, buf: bytes, c: Cursor, n: nat)
    requires c.pos + n <= |buf|
    ensures Agrees(ReadValue(Raw(size), buf, c), c.pos, Parse(Raw(size), Slice(buf, c.pos, n)), true)
  {
    hide ReadContainer, ParseContainer, ReadFields, ParseFields, ReadInt, ParseInt;
    if size <= n {
      assert Slice(buf, c.pos, n)[..size] == buf[c.pos..c.pos + size];
    }
  }

  lemma StrRefines(width: nat, buf: bytes, c: Cursor, n: nat)
    requires c.pos + n <= |buf| && c.size == n
    ensures Agrees(ReadValue(Str(width), buf, c), c.pos, Parse(Str(width), Slice(buf, c.pos, n)), false)
  {
    hide WholeChars, ReadContainer, ParseContainer, ReadFields, ParseFields, ReadInt, ParseInt;
    var k := WholeChars(n, width);
    assert Slice(buf, c.pos, n)[..k] == buf[c.pos..c.pos + k];
  }

  lemma Behind(buf: bytes, pos: nat, n: nat, used: nat)
    requires used <= n && pos + n <= |buf|
    ensures Slice(buf, pos, n)[used..] == Slice(buf, pos + used, n - used)
    ensures used > 0 ==> Slice(buf, pos, n)[0] == buf[pos]
  {
  }

  lemma AutoRefines(signed: bool, buf: bytes, pos: nat, n: nat)
    requires pos + n <= |buf|
    ensures Decode(signed, Slice(buf, pos, n)).Some?
      ==> ReadAuto(signed, buf, pos) == Decode(signed, Slice(buf, pos, n))
  {
    hide DecodeOver;
    var s := Slice(buf, pos, n);
    assert buf[pos..] == s + buf[pos + n..];
    if Decode(signed, s).Some? {
      DecodeExtends(signed, s, buf[pos + n..]);
    }
  }

  lemma {:induction false} ContainerRefines(e: Ty, buf: bytes, c: Cursor, n: nat, multi: bool, keyed: bool)
    requires c.pos + n <= |buf| && n < WORD64
    ensures Agrees(ReadContainer(e, buf, c, multi, keyed), c.pos, ParseContainer(e, Slice(buf, c.pos, n), multi, keyed),
      true)
    decreases e, 4
  {
    hide Decode, EmplaceAll, ParseItems, ReadItems;
    var s := Slice(buf, c.pos, n);
    AutoRefines(false, buf, c.pos, n);
    var head := Decode(false, s);
    if head.Some? {
      var (count, cost) := head.value;
      Behind(buf, c.pos, n, cost);
      ItemsRefine(e, buf, c.Advance(cost), n - cost, count);
    }
  }

  lemma {:induction false} ItemsRefine(e: Ty, buf: bytes, c: Cursor, n: nat, count: nat)
    requires c.pos + n <= |buf| && n < WORD64
    ensures Agrees(ReadItems(e, buf, c, count), c.pos, ParseItems(e, Slice(buf, c.pos, n), count), true)
    decreases e, 3, count
  {
    hide Decode, ReadItem, ParseItem;
    if count > 0 {
      var s := Slice(buf, c.pos, n);
      ItemsRefine(e, buf, c, n, count - 1);
      var r, p := ReadItems(e, buf, c, count - 1), ParseItems(e, s, count - 1);
      if p.Some? {
        var used := p.value.1;
        Behind(buf, c.pos, n, used);
        ItemRefines(e, buf, r.value.1, n - used, false);
      }
    }
  }

  lemma {:induction false} ItemRefines(e: Ty, buf: bytes, c: Cursor, n: nat, inStruct: bool)
    requires c.pos + n <= |buf| && n < WORD64
    ensures Agrees(ReadItem(e, buf, c, inStruct), c.pos, ParseItem(e, Slice(buf, c.pos, n)), true)
    decreases e, 2
  {
    hide Decode, ReadValue, Parse, Slice;
    if Fundamental(e) || e.Ignore? {
      CursorRefines(e, buf, c, n);
    } else {
      var s := Slice(buf, c.pos, n);
      SliceLength(buf, c.pos, n);
      AutoRefines(false, buf, c.pos, n);
      var head := Decode(false, s);
      if head.Some? && head.value.1 + head.value.0 <= n {
        var (len, cost) := head.value;
        Within(buf, c.pos, n, cost, len);
        CursorRefines(e, buf, Cursor(c.pos + cost, len), len);
      }
    }
  }

  lemma SliceLength(buf: bytes, pos: nat, n: nat)
    requires pos + n <= |buf|
    ensures |Slice(buf, pos, n)| == n
  {
  }

  lemma Within(buf: bytes, pos: nat, n: nat, from: nat, len: nat)
    requires pos + n <= |buf| && from + len <= n
    ensures |Slice(buf, pos, n)| == n && Slice(buf, pos, n)[from..from + len] == Slice(buf, pos + from, len)
  {
    var s := Slice(buf, pos, n);
    Behind(buf, pos, n, from);
    assert s[from..from + len] == s[from..][..len];
  }

  lemma {:induction false} FieldsRefine(ts: seq<Ty>, buf: bytes, c: Cursor, n: nat, inStruct: bool)
    requires c.pos + n <= |buf| && n < WORD64
    ensures Agrees(ReadFields(ts, buf, c, inStruct), c.pos, ParseFields(ts, Slice(buf, c.pos, n)), true)
    decreases ts, 1
  {
    hide Decode, ReadItem, ParseItem;
    if ts != [] {
      var s := Slice(buf, c.pos, n);
      FieldsRefine(Init(ts), buf, c, n, inStruct);
      var r, p := ReadFields(Init(ts), buf, c, inStruct), ParseFields(Init(ts), s);
      if p.Some? {
        var used := p.value.1;
        Behind(buf, c.pos, n, used);
        ItemRefines(Last(ts), buf, r.value.1, n - used, inStruct);
      }
    }
  }

  // ---- Every string met sees the exact size ----

  /**
   Following `ReadValue` through the archive that ends at `end`: wherever a string is about to be read, at whatever
   depth, the cursor's size is the number of bytes left in that string's own archive.
   */
  ghost predicate StringsExact(t: Ty, buf: bytes, c: Cursor, end: nat)
    decreases t, 0
  {
    match t
    case Str(_) => c.pos + c.size == end
    case List(e) => ContainerExact(e, buf, c)
    case ForwardList(e) => ContainerExact(e, buf, c)
    case Set(e, _) => ContainerExact(e, buf, c)
    case Map(e, _) => ContainerExact(e, buf, c)
    case Optional(e) => c.pos < |buf| && buf[c.pos] != 0 ==> StringsExact(e, buf, c.Advance(1), end)
    case Tuple(ts) => FieldsExact(ts, buf, c, false)
    case Struct(ts) => FieldsExact(ts, buf, c, true)
    case _ => true
  }

  ghost predicate ContainerExact(e: Ty, buf: bytes, c: Cursor)
    decreases e, 4
  {
    match ReadAuto(false, buf, c.pos)
    case None => true
    case Some((n, cost)) => ItemsExact(e, buf, c.Advance(cost), n)
  }

  ghost predicate ItemsExact(e: Ty, buf: bytes, c: Cursor, n: nat)
    decreases e, 3, n
  {
    n > 0 ==>
      && ItemsExact(e, buf, c, n - 1)
      && match ReadItems(e, buf, c, n - 1)
         case None => true
         case Some((_, c')) => ItemExact(e, buf, c')
  }

  ghost predicate ItemExact(e: Ty, buf: bytes, c: Cursor)
    decreases e, 2
  {
    !Fundamental(e) && !e.Ignore? ==>
      match ReadAuto(false, buf, c.pos)
      case None => true
      case Some((len, cost)) => StringsExact(e, buf, Cursor(c.pos + cost, len), c.pos + cost + len)
  }

  ghost predicate FieldsExact(ts: seq<Ty>, buf: bytes, c: Cursor, inStruct: bool)
    decreases ts, 1
  {
    ts != [] ==>
      && FieldsExact(Init(ts), buf, c, inStruct)
      && match ReadFields(Init(ts), buf, c, inStruct)
         case None => true
         case Some((_, c')) => ItemExact(Last(ts), buf, c')
  }

  /** In every archive that parses, however stale the sizes of the enclosing structs have become. */
  lemma {:induction false} EveryStringSeesItsSize(t: Ty, buf: bytes, c: Cursor, n: nat)
    requires c.pos + n <= |buf| && n < WORD64 && Parse(t, Slice(buf, c.pos, n)).Some?
    requires SelfDelimiting(t) || c.size == n
    ensures StringsExact(t, buf, c, c.pos + n)
    decreases t, 0
  {
    hide Decode, ReadContainer, ParseContainer, ReadFields, ParseFields, ReadInt, ParseInt, WholeChars, Slice,
      ContainerExact, FieldsExact;
    match t
    case List(e) => ContainerSeesSizes(e, buf, c, n, true, false);
    case ForwardList(e) => ContainerSeesSizes(e, buf, c, n, true, false);
    case Set(e, multi) => ContainerSeesSizes(e, buf, c, n, multi, false);
    case Map(e, multi) => ContainerSeesSizes(e, buf, c, n, multi, true);
    case Optional(e) => OptionalSeesSizes(e, buf, c, n);
    case Tuple(ts) => FieldsSeeSizes(ts, buf, c, n, false);
    case Struct(ts) => FieldsSeeSizes(ts, buf, c, n, true);
    case _ =>
  }

  lemma {:induction false} OptionalSeesSizes(e: Ty, buf: bytes, c: Cursor, n: nat)
    requires c.pos + n <= |buf| && n < WORD64 && Parse(Optional(e), Slice(buf, c.pos, n)).Some?
    requires SelfDelimiting(e) || c.size == n
    ensures StringsExact(Optional(e), buf, c, c.pos + n)
    decreases e, 5
  {
    hide Decode, ReadContainer, ParseContainer, ReadFields, ParseFields, ReadInt, ParseInt, WholeChars, Slice,
      ContainerExact,
      FieldsExact;
    SliceLength(buf, c.pos, n);
    if buf[c.pos] != 0 {
      Behind(buf, c.pos, n, 1);
      EveryStringSeesItsSize(e, buf, c.Advance(1), n - 1);
    }
  }

  lemma {:induction false} ContainerSeesSizes(e: Ty, buf: bytes, c: Cursor, n: nat, multi: bool, keyed: bool)
    requires c.pos + n <= |buf| && n < WORD64 && ParseContainer(e, Slice(buf, c.pos, n), multi, keyed).Some?
    ensures ContainerExact(e, buf, c)
    decreases e, 4
  {
    hide Decode, EmplaceAll, ParseItems, ReadItems, ItemsExact;
    AutoRefines(false, buf, c.pos, n);
    var (count, cost) := Decode(false, Slice(buf, c.pos, n)).value;
    Behind(buf, c.pos, n, cost);
    ItemsSeeSizes(e, buf, c.Advance(cost), n - cost, count);
  }

  lemma {:induction false} ItemsSeeSizes(e: Ty, buf: bytes, c: Cursor, n: nat, count: nat)
    requires c.pos + n <= |buf| && n < WORD64 && ParseItems(e, Slice(buf, c.pos, n), count).Some?
    ensures ItemsExact(e, buf, c, count)
    decreases e, 3, count
  {
    hide Decode, ReadItem, ParseItem, ItemExact;
    if count > 0 {
      ItemsSeeSizes(e, buf, c, n, count - 1);
      ItemsRefine(e, buf, c, n, count - 1);
      var used := ParseItems(e, Slice(buf, c.pos, n), count - 1).value.1;
      Behind(buf, c.pos, n, used);
      ItemSeesSizes(e, buf, ReadItems(e, buf, c, count - 1).value.1, n - used);
    }
  }

  lemma {:induction false} ItemSeesSizes(e: Ty, buf: bytes, c: Cursor, n: nat)
    requires c.pos + n <= |buf| && n < WORD64 && ParseItem(e, Slice(buf, c.pos, n)).Some?
    ensures ItemExact(e, buf, c)
    decreases e, 2
  {
    hide Decode, ReadValue, Parse, Slice, StringsExact;
    if !Fundamental(e) && !e.Ignore? {
      SliceLength(buf, c.pos, n);
      AutoRefines(false, buf, c.pos, n);
      var (len, cost) := Decode(false, Slice(buf, c.pos, n)).value;
      Within(buf, c.pos, n, cost, len);
      EveryStringSeesItsSize(e, buf, Cursor(c.pos + cost, len), len);
    }
  }

  lemma {:induction false} FieldsSeeSizes(ts: seq<Ty>, buf: bytes, c: Cursor, n: nat, inStruct: bool)
    requires c.pos + n <= |buf| && n < WORD64 && ParseFields(ts, Slice(buf, c.pos, n)).Some?
    ensures FieldsExact(ts, buf, c, inStruct)
    decreases ts, 1
  {
    hide Decode, ReadItem, ParseItem, ItemExact;
    if ts != [] {
      FieldsSeeSizes(Init(ts), buf, c, n, inStruct);
      FieldsRefine(Init(ts), buf, c, n, inStruct);
      var used := ParseFields(Init(ts), Slice(buf, c.pos, n)).value.1;
      Behind(buf, c.pos, n, used);
      ItemSeesSizes(Last(ts), buf, ReadFields(Init(ts), buf, c, inStruct).value.1, n - used);
    }
  }

  /** `deserialize(serialize(v))` is `v`: the cursor over exactly the encoding reads the value back. */
  lemma DeserializeSerialize(t: Ty, v: Value)
    requires Typed(t, v) && |EncodeValue(v)| < WORD64
    ensures var data := EncodeValue(v);
            var r := ReadValue(t, data, Cursor(0, |data|));
            r.Some? && r.value.0 == v
  {
    var data := EncodeValue(v);
    assert data + [] == data && Slice(data, 0, |data|) == data;
    SerialRoundTrip.ParseEncode(t, v, []);
    CursorRefines(t, data, Cursor(0, |data|), |data|);
  }

  /** With a stale size a string takes the wrong bytes: the exact size is what its decoding needs. */
  lemma StringNeedsTheExactSize(chars: bytes, size: nat)
    ensures var r := ReadValue(Str(1), chars, Cursor(0, size));
            r.Some? && r.value.0 == VStr(chars) <==> size == |chars|
  {
    assert chars[0..|chars|] == chars;
  }
}
