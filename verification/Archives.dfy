/** The archives as objects, and the serialization operators that write to and read from them step by step. */
module Archives {
  import opened Bytes
  import opened AutoSize
  import opened SerialTypes
  import opened ArchiveCursor
  import SerialRoundTrip

  class OArchive {
    var data: bytes

    constructor ()
      ensures data == []
    {
      data := [];
    }
  }

  class IArchive {
    /** The whole memory `data` points into. */
    const buf: bytes
    var pos: nat
    var size: nat

    constructor (buf: bytes, pos: nat, size: nat)
      ensures this.buf == buf && At() == Cursor(pos, size)
    {
      this.buf := buf;
      this.pos := pos;
      this.size := size;
    }

    function At(): Cursor
      reads this
    {
      Cursor(pos, size)
    }
  }

  // ---- Writing ----

  method PutAuto(signed: bool, i: int, oa: OArchive)
    requires InRange(signed, i)
    modifies oa
    ensures oa.data == old(oa.data) + Encode(i)
  {
    var impl := new AutoSizeType(signed, i);
    var s := impl.Serialize();
    oa.data := oa.data + s;
  }

  /** `operator>>(const serialize_oarchive&, serialize_oarchive&)`. */
  method PutArchive(t: OArchive, oa: OArchive)
    requires t != oa
    modifies oa
    ensures oa.data == old(oa.data) + Prefixed(t.data)
  {
    PutAuto(false, |t.data| % WORD64, oa);
    oa.data := oa.data + t.data;
    assert oa.data == old(oa.data) + Prefixed(t.data);
  }

  /** A string from an rvalue replaces an empty archive's data, a string from an lvalue is appended. */
  method PutString(chars: bytes, rvalue: bool, oa: OArchive)
    modifies oa
    ensures oa.data == old(oa.data) + chars
  {
    if rvalue {
      if oa.data == [] {
        oa.data := chars;
      } else {
        oa.data := oa.data + chars;
      }
    } else {
      oa.data := oa.data + chars;
    }
  }

  /** `t >> oa`, by the type of the value. */
  method PutValue(t: Ty, v: Value, oa: OArchive)
    requires Typed(t, v)
    modifies oa
    ensures oa.data == old(oa.data) + EncodeValue(v)
    decreases t, 0
  {
    hide Encode;
    match t
    case Raw(_) => oa.data := oa.data + v.raw;
    case AutoInt(signed, wide) => PutAuto(signed, v.number, oa);
    case Str(_) => PutString(v.chars, false, oa);
    case List(e) => PutContainer(e, v, oa);
    case ForwardList(e) => PutContainer(e, v, oa);
    case Set(e, _) => PutContainer(e, v, oa);
    case Map(e, _) => PutContainer(e, v, oa);
    case Optional(e) =>
      if v.VSome? {
        oa.data := oa.data + [1];
        PutValue(e, v.target, oa);
      } else {
        oa.data := oa.data + [0];
      }
    case Tuple(ts) => PutTuple(ts, v.fields, oa);
    case Struct(ts) => PutTuple(ts, v.fields, oa);
    case Ignore => assert oa.data == oa.data + [];
  }

  method PutContainer(e: Ty, v: Value, oa: OArchive)
    requires v.VItems? && |v.items| < WORD64 && AllTyped(e, v.items)
    modifies oa
    ensures oa.data == old(oa.data) + EncodeValue(v)
    decreases e, 2
  {
    hide Encode;
    PutAuto(false, |v.items|, oa);
    var start := oa.data;
    for i := 0 to |v.items|
      invariant oa.data == start + EncodeItems(v.items[..i])
    {
      PutItem(e, v.items[i], oa);
      assert Init(v.items[..i + 1]) == v.items[..i];
    }
    assert v.items[..|v.items|] == v.items;
  }

  /** Fundamentals go inline, everything else through a temporary archive; `std::ignore` leaves no trace. */
  method PutItem(e: Ty, v: Value, oa: OArchive)
    requires Typed(e, v)
    modifies oa
    ensures oa.data == old(oa.data) + EncodeItem(v)
    decreases e, 1
  {
    hide Encode;
    if Fundamental(e) || e.Ignore? {
      PutValue(e, v, oa);
    } else {
      var tmp := new OArchive();
      PutValue(e, v, tmp);
      assert tmp.data == EncodeValue(v);
      PutArchive(tmp, oa);
    }
  }

  /**
   The tuple helper recurses on the elements before the last; the fields of a struct are written in the same order.
   */
  method PutTuple(ts: seq<Ty>, vs: seq<Value>, oa: OArchive)
    requires EachTyped(ts, vs)
    modifies oa
    ensures oa.data == old(oa.data) + EncodeItems(vs)
    decreases ts, 2
  {
    hide Encode, EncodeItem;
    if ts == [] {
      assert oa.data == oa.data + [];
    } else {
      PutTuple(Init(ts), Init(vs), oa);
      PutItem(Last(ts), Last(vs), oa);
    }
  }

  // ---- Reading ----

  /** The operator did what the cursor decoder says: the same value, and the archive at the same place. */
  ghost predicate Did<V>(spec: Option<(V, Cursor)>, r: Option<V>, at: Cursor) {
    match r
    case None => spec == None
    case Some(v) => spec == Some((v, at))
  }

  /** `None` where the read would leave the memory. */
  method GetAuto(signed: bool, ia: IArchive) returns (r: Option<int>)
    modifies ia
    ensures match ReadAuto(signed, ia.buf, old(ia.pos))
            case None => r == None
            case Some((i, cost)) => r == Some(i) && ia.At() == old(ia.At()).Advance(cost)
  {
    hide DecodeOver;
    if ia.pos > |ia.buf| || !Readable(ia.buf[ia.pos..]) {
      return None;
    }
    var impl := new AutoSizeType(signed);
    var cost := impl.Deserialize(ia.buf[ia.pos..]);
    ia.pos := ia.pos + cost;
    ia.size := (ia.size - cost) % WORD64;
    r := Some(impl.value);
  }

  /** `t << ia`, by the type of the target. */
  method GetValue(t: Ty, ia: IArchive) returns (r: Option<Value>)
    modifies ia
    ensures Did(ReadValue(t, ia.buf, old(ia.At())), r, ia.At())
    decreases t, 0
  {
    hide Decode, ReadContainer, ReadFields, WholeChars;
    match t
    case Raw(size) =>
      if ia.pos + size > |ia.buf| {
        return None;
      }
      r := Some(VRaw(ia.buf[ia.pos..ia.pos + size]));
      ia.pos := ia.pos + size;
      ia.size := (ia.size - size) % WORD64;
    case AutoInt(signed, wide) =>
      var i := GetAuto(signed, ia);
      r := if i.Some? then Some(VInt(Narrow(signed, wide, i.value))) else None;
    case Str(width) =>
      if width == 0 || ia.pos + WholeChars(ia.size, width) > |ia.buf| {
        return None;
      }
      r := Some(VStr(ia.buf[ia.pos..ia.pos + WholeChars(ia.size, width)]));
    case List(e) => r := GetList(e, ia);
    case ForwardList(e) => r := GetForwardList(e, ia);
    case Set(e, multi) => r := GetSetOrMap(e, multi, false, ia);
    case Map(e, multi) => r := GetSetOrMap(e, multi, true, ia);
    case Optional(e) =>
      if ia.pos >= |ia.buf| {
        return None;
      }
      var notnull := ia.buf[ia.pos] != 0;
      ia.pos := ia.pos + 1;
      ia.size := (ia.size - 1) % WORD64;
      r := Some(VNone);
      if notnull {
        r := GetValue(e, ia);
        r := if r.Some? then Some(VSome(r.value)) else None;
      }
    case Tuple(ts) => r := GetFields(ts, ia, false);
    case Struct(ts) => r := GetFields(ts, ia, true);
    case Ignore => r := Some(VIgnored);
  }

  /** Moving the cursor behind the size and then behind the content, both times modulo 2^64, is one move. */
  lemma AdvanceTwice(c: Cursor, cost: nat, len: nat)
    ensures c.Advance(cost).Advance(len) == c.Advance(cost + len)
  {
  }

  method GetItem(e: Ty, ia: IArchive, inStruct: bool) returns (r: Option<Value>)
    modifies ia
    ensures Did(ReadItem(e, ia.buf, old(ia.At()), inStruct), r, ia.At())
    decreases e, 1
  {
    hide Decode, ReadValue;
    if Fundamental(e) || e.Ignore? {
      r := GetValue(e, ia);
    } else {
      var size := ia.size;
      var len := GetAuto(false, ia);
      if len == None {
        return None;
      }
      var tmp := new IArchive(ia.buf, ia.pos, len.value);
      r := GetValue(e, tmp);
      AdvanceTwice(old(ia.At()), ia.pos - old(ia.pos), len.value);
      ia.pos := ia.pos + len.value;
      ia.size := if inStruct then size else (ia.size - len.value) % WORD64;
    }
  }

  /** An element that cannot be read makes the container unreadable. */
  lemma {:induction false} ItemsFail(e: Ty, buf: bytes, c: Cursor, i: nat, n: nat)
    requires i <= n && ReadItems(e, buf, c, i) == None
    ensures ReadItems(e, buf, c, n) == None
    decreases n
  {
    if i < n {
      ItemsFail(e, buf, c, i, n - 1);
    }
  }

  /** vector, list and deque: `emplace_back`. */
  method GetList(e: Ty, ia: IArchive) returns (r: Option<Value>)
    modifies ia
    ensures Did(ReadContainer(e, ia.buf, old(ia.At()), true, false), r, ia.At())
    decreases e, 2
  {
    hide Decode, ReadItem, EmplaceAll;
    var size := GetAuto(false, ia);
    if size == None {
      return None;
    }
    var n := size.value;
    ghost var c := ia.At();
    var items := [];
    for i := 0 to n
      invariant ReadItems(e, ia.buf, c, i) == Some((items, ia.At()))
    {
      var item := GetItem(e, ia, false);
      if item == None {
        ItemsFail(e, ia.buf, c, i + 1, n);
        return None;
      }
      items := items + [item.value];
    }
    SerialRoundTrip.EmplaceAllDistinct(true, false, items);
    r := Some(VItems(items));
  }

  function Reverse<T>(s: seq<T>): seq<T> {
    if s == [] then [] else Reverse(s[1..]) + [s[0]]
  }

  /** forward_list: `emplace_front`, then `reverse`; the result is that of appending. */
  method GetForwardList(e: Ty, ia: IArchive) returns (r: Option<Value>)
    modifies ia
    ensures Did(ReadContainer(e, ia.buf, old(ia.At()), true, false), r, ia.At())
    decreases e, 2
  {
    hide Decode, ReadItem, EmplaceAll;
    var size := GetAuto(false, ia);
    if size == None {
      return None;
    }
    var n := size.value;
    ghost var c := ia.At();
    var items: seq<Value> := [];
    for i := 0 to n
      invariant ReadItems(e, ia.buf, c, i) == Some((Reverse(items), ia.At()))
    {
      var item := GetItem(e, ia, false);
      if item == None {
        ItemsFail(e, ia.buf, c, i + 1, n);
        return None;
      }
      assert ([item.value] + items)[1..] == items;
      items := [item.value] + items;
    }
    items := Reverse(items);
    SerialRoundTrip.EmplaceAllDistinct(true, false, items);
    r := Some(VItems(items));
  }

  /** Sets and maps: `emplace`, which drops an element whose key is present when keys are unique. */
  method GetSetOrMap(e: Ty, multi: bool, keyed: bool, ia: IArchive) returns (r: Option<Value>)
    modifies ia
    ensures Did(ReadContainer(e, ia.buf, old(ia.At()), multi, keyed), r, ia.At())
    decreases e, 2
  {
    hide Decode, ReadItem, Emplace;
    var size := GetAuto(false, ia);
    if size == None {
      return None;
    }
    var n := size.value;
    ghost var c := ia.At();
    ghost var vs: seq<Value> := [];
    var items: seq<Value> := [];
    for i := 0 to n
      invariant ReadItems(e, ia.buf, c, i) == Some((vs, ia.At()))
      invariant items == EmplaceAll(multi, keyed, vs)
    {
      var item := GetItem(e, ia, false);
      if item == None {
        ItemsFail(e, ia.buf, c, i + 1, n);
        return None;
      }
      assert Init(vs + [item.value]) == vs;
      vs := vs + [item.value];
      items := Emplace(multi, keyed, items, item.value);
    }
    r := Some(VItems(items));
  }

  /**
   The tuple helper recurses on the elements before the last; the macro for structs reads the fields in the same order.
   */
  method GetFields(ts: seq<Ty>, ia: IArchive, inStruct: bool) returns (r: Option<Value>)
    modifies ia
    ensures Did(ReadFields(ts, ia.buf, old(ia.At()), inStruct), r, ia.At())
    decreases ts, 2
  {
    hide Decode, ReadItem;
    if ts == [] {
      return Some(VFields([]));
    }
    r := GetFields(Init(ts), ia, inStruct);
    if r.Some? {
      var last := GetItem(Last(ts), ia, inStruct);
      r := if last.Some? then Some(VFields(r.value.fields + [last.value])) else None;
    }
  }

  // ---- serialize_api.hpp ----

  /** `deserialize(serialize(v))` through the operators themselves. */
  method RoundTripThroughArchives(t: Ty, v: Value) returns (data: bytes, r: Option<Value>)
    requires Typed(t, v) && |EncodeValue(v)| < WORD64
    ensures data == EncodeValue(v) && r == Some(v)
  {
    hide EncodeValue, ReadValue, Typed;
    var oa := new OArchive();
    PutValue(t, v, oa);
    data := oa.data;
    assert data == EncodeValue(v);
    var ia := new IArchive(data, 0, |data|);
    DeserializeSerialize(t, v);
    r := GetValue(t, ia);
  }
}
