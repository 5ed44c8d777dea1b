/** The bytes of serialized values, in numbers and without reference to the encoder. */
module SerialFormat {
  import opened Bytes
  import opened AutoSize
  import opened SerialTypes
  import opened ArchiveCursor

  /**
   `s` is the form of `v`. Fundamentals and characters are as they are; a container starts with its number of elements;
   an optional is a byte 0, or a byte 1 and its target; fields follow each other.
   */
  ghost predicate OnWire(v: Value, s: bytes)
    decreases v, 1
  {
    match v
    case VRaw(raw) => s == raw
    case VInt(i) => WrittenAs(i, s)
    case VStr(chars) => s == chars
    case VItems(items) => exists k :: 0 <= k <= |s| && WrittenAs(|items|, s[..k]) && AllOnWire(items, s[k..])
    case VNone => s == [0]
    case VSome(target) => |s| >= 1 && s[0] == 1 && OnWire(target, s[1..])
    case VFields(fields) => AllOnWire(fields, s)
    case VIgnored => s == []
  }

  /** Elements and fields: fundamentals inline, everything else behind its size in bytes, `std::ignore` not at all. */
  ghost predicate ItemOnWire(v: Value, s: bytes)
    decreases v, 2
  {
    if v.VRaw? || v.VInt? || v.VIgnored? then OnWire(v, s)
    else exists k :: 0 <= k <= |s| && WrittenAs(|s| - k, s[..k]) && OnWire(v, s[k..])
  }

  ghost predicate AllOnWire(vs: seq<Value>, s: bytes)
    decreases vs, 0
  {
    if vs == [] then s == []
    else exists k :: 0 <= k <= |s| && AllOnWire(Init(vs), s[..k]) && ItemOnWire(Last(vs), s[k..])
  }

  /** Every typed value of any depth is encoded in this form. */
  lemma {:induction false} EncodedOnWire(t: Ty, v: Value)
    requires Typed(t, v) && |EncodeValue(v)| < WORD64
    ensures OnWire(v, EncodeValue(v))
    decreases t, 0
  {
    hide Encode, EncodeItems, WrittenAs, AllOnWire;
    match t
    case Raw(_) =>
    case AutoInt(signed, wide) => EncodedForm(v.number);
    case Str(_) =>
    case List(e) => ContainerOnWire(e, v);
    case ForwardList(e) => ContainerOnWire(e, v);
    case Set(e, _) => ContainerOnWire(e, v);
    case Map(e, _) => ContainerOnWire(e, v);
    case Optional(e) => OptionalOnWire(e, v);
    case Tuple(ts) => FieldsOnWire(ts, v.fields);
    case Struct(ts) => FieldsOnWire(ts, v.fields);
    case Ignore =>
  }

  lemma {:induction false} OptionalOnWire(e: Ty, v: Value)
    requires Typed(Optional(e), v) && |EncodeValue(v)| < WORD64
    ensures OnWire(v, EncodeValue(v))
    decreases e, 5
  {
    hide Encode, EncodeItems, WrittenAs, AllOnWire;
    if v.VSome? {
      assert EncodeValue(v)[1..] == EncodeValue(v.target);
      EncodedOnWire(e, v.target);
    }
  }

  lemma {:induction false} ContainerOnWire(e: Ty, v: Value)
    requires v.VItems? && |v.items| < WORD64 && AllTyped(e, v.items) && |EncodeValue(v)| < WORD64
    ensures OnWire(v, EncodeValue(v))
    decreases e, 4
  {
    hide Encode, EncodeItems, WrittenAs, AllOnWire, Typed;
    var head, body := Encode(|v.items|), EncodeItems(v.items);
    var s := head + body;
    EncodedForm(|v.items|);
    ItemsOnWire(e, v.items);
    assert s[..|head|] == head && s[|head|..] == body;
  }

  lemma {:induction false} ItemsOnWire(e: Ty, vs: seq<Value>)
    requires AllTyped(e, vs) && |EncodeItems(vs)| < WORD64
    ensures AllOnWire(vs, EncodeItems(vs))
    decreases e, 3, |vs|
  {
    hide Encode, EncodeItem, ItemOnWire, Typed;
    if vs != [] {
      var before, last := EncodeItems(Init(vs)), EncodeItem(Last(vs));
      ItemsOnWire(e, Init(vs));
      EncodedItemOnWire(e, Last(vs));
      OneMoreOnWire(vs, before, last);
    }
  }

  lemma OneMoreOnWire(vs: seq<Value>, before: bytes, last: bytes)
    requires vs != [] && AllOnWire(Init(vs), before) && ItemOnWire(Last(vs), last)
    ensures AllOnWire(vs, before + last)
  {
    hide ItemOnWire;
    var s := before + last;
    assert s[..|before|] == before && s[|before|..] == last;
  }

  lemma {:induction false} EncodedItemOnWire(e: Ty, v: Value)
    requires Typed(e, v) && |EncodeItem(v)| < WORD64
    ensures ItemOnWire(v, EncodeItem(v))
    decreases e, 2
  {
    if v.VRaw? || v.VInt? || v.VIgnored? {
      hide Encode, EncodeItems, WrittenAs, AllOnWire;
      EncodedOnWire(e, v);
    } else {
      hide Encode, EncodeItems, WrittenAs, AllOnWire, OnWire;
      var body := EncodeValue(v);
      var size := Encode(|body|);
      EncodedForm(|body|);
      EncodedOnWire(e, v);
      assert (size + body)[..|size|] == size && (size + body)[|size|..] == body;
    }
  }

  lemma {:induction false} FieldsOnWire(ts: seq<Ty>, vs: seq<Value>)
    requires EachTyped(ts, vs) && |EncodeItems(vs)| < WORD64
    ensures AllOnWire(vs, EncodeItems(vs))
    decreases ts, 1
  {
    hide Encode, EncodeItem, ItemOnWire, Typed;
    if ts != [] {
      var before, last := EncodeItems(Init(vs)), EncodeItem(Last(vs));
      FieldsOnWire(Init(ts), Init(vs));
      EncodedItemOnWire(Last(ts), Last(vs));
      OneMoreOnWire(vs, before, last);
    }
  }

  // ---- Keys, characters, integers, and the size a struct leaves behind ----

  /** Sets compare whole elements, maps the first field of an entry; the container that allows duplicates keeps all. */
  lemma KeysOfElements(a: Value, b: Value, x: Value, y: Value)
    requires a != b
    ensures EmplaceAll(false, false, [a, b, a]) == [a, b]
    ensures EmplaceAll(false, true, [VFields([a, x]), VFields([b, x]), VFields([a, y])])
         == [VFields([a, x]), VFields([b, x])]
    ensures EmplaceAll(true, false, [a, b, a]) == [a, b, a]
  {
    var ax, bx, ay := VFields([a, x]), VFields([b, x]), VFields([a, y]);
    ThreeEmplaced(false, false, a, b, a);
    ThreeEmplaced(true, false, a, b, a);
    ThreeEmplaced(false, true, ax, bx, ay);
    KeysOfTwo(false, a, b, b);
    KeysOfTwo(false, a, b, a);
    KeysOfTwo(true, ax, bx, b);
    KeysOfTwo(true, ax, bx, a);
  }

  lemma KeysOfTwo(keyed: bool, v: Value, w: Value, key: Value)
    ensures HasKey(keyed, [v], key) <==> Key(keyed, v) == key
    ensures HasKey(keyed, [v] + [w], key) <==> Key(keyed, v) == key || Key(keyed, w) == key
  {
    assert [v][0] == v && ([v] + [w])[0] == v && ([v] + [w])[1] == w;
  }

  /** A string read from `size` bytes has as many whole characters as fit. */
  lemma WholeCharacters(size: nat, width: nat)
    requires width > 0
    ensures var n := WholeChars(size, width); n <= size < n + width && n % width == 0
  {
    var q := size / width;
    assert size == width * q + size % width;
    QuotientUnique(width * q, width, q, 0);
  }

  lemma ThreeEmplaced(multi: bool, keyed: bool, a: Value, b: Value, c: Value)
    ensures EmplaceAll(multi, keyed, [a, b, c]) == Emplace(multi, keyed, Emplace(multi, keyed, [a], b), c)
  {
    assert Init([a, b, c]) == [a, b] && Init([a, b]) == [a] && Init([a]) == [];
    assert EmplaceAll(multi, keyed, [a]) == [a];
    assert EmplaceAll(multi, keyed, [a, b]) == Emplace(multi, keyed, [a], b);
  }

  /**
   A field that is an archive of its own moves the enclosing cursor; its size shrinks in a tuple and stays in a struct.
   */
  lemma StructLeavesSizeStale(e: Ty, buf: bytes, c: Cursor)
    requires !Fundamental(e) && !e.Ignore?
    ensures var tuple, struct := ReadItem(e, buf, c, false), ReadItem(e, buf, c, true);
            && tuple.Some? == struct.Some?
            && (tuple.Some? ==>
                  && tuple.value.0 == struct.value.0
                  && tuple.value.1.pos == struct.value.1.pos && struct.value.1.size == c.size
                  && tuple.value.1.size == (c.size - (tuple.value.1.pos - c.pos)) % 0x1_0000_0000_0000_0000)
  {
    hide Decode, ReadValue;
  }
}
