/**
 The types and values of the binary serialization, the encoding of a value, and a pure decoder that works on exact
 slices of an archive.
 */
module SerialTypes {
  import opened Bytes
  import opened AutoSize

  /**
   `Raw` are the fixed-width fundamentals (floats included, as opaque bytes), `AutoInt` the auto-sized integers of four
   or eight bytes, `Str` strings of `width`-byte characters. `List` stands for vector, list and deque. The entry of a
   map is a pair, that is a two-element tuple. `Ignore` is `std::ignore` inside a tuple.
   */
  datatype Ty =
    | Raw(size: nat)
    | AutoInt(signed: bool, wide: bool)
    | Str(width: nat)
    | List(elem: Ty)
    | ForwardList(elem: Ty)
    | Set(elem: Ty, multi: bool)
    | Map(entry: Ty, multi: bool)
    | Optional(target: Ty)
    | Tuple(elems: seq<Ty>)
    | Struct(fields: seq<Ty>)
    | Ignore

  /** Containers are given by their elements in iteration order. */
  datatype Value =
    | VRaw(raw: bytes)
    | VInt(number: int)
    | VStr(chars: bytes)
    | VItems(items: seq<Value>)
    | VNone
    | VSome(target: Value)
    | VFields(fields: seq<Value>)
    | VIgnored

  /** `std::is_fundamental`. */
  predicate Fundamental(t: Ty) {
    t.Raw? || t.AutoInt?
  }

  predicate FundamentalValue(v: Value) {
    v.VRaw? || v.VInt?
  }

  predicate IntInRange(signed: bool, wide: bool, i: int) {
    if wide then InRange(signed, i)
    else if signed then -0x8000_0000 <= i < 0x8000_0000
    else 0 <= i < WORD32
  }

  /** The key by which a container without duplicates compares its elements. */
  function Key(keyed: bool, v: Value): Value {
    if keyed && v.VFields? && v.fields != [] then v.fields[0] else v
  }

  predicate HasKey(keyed: bool, items: seq<Value>, key: Value) {
    exists i :: 0 <= i < |items| && Key(keyed, items[i]) == key
  }

  /** `emplace`: a container without duplicates ignores an element whose key is present. */
  function Emplace(multi: bool, keyed: bool, items: seq<Value>, v: Value): seq<Value> {
    if !multi && HasKey(keyed, items, Key(keyed, v)) then items else items + [v]
  }

  /** Emplacing `vs` in order into an empty container. */
  function EmplaceAll(multi: bool, keyed: bool, vs: seq<Value>): seq<Value>
    decreases |vs|
  {
    if vs == [] then [] else Emplace(multi, keyed, EmplaceAll(multi, keyed, Init(vs)), Last(vs))
  }

  ghost predicate DistinctKeys(keyed: bool, items: seq<Value>) {
    forall i, j :: 0 <= i < j < |items| ==> Key(keyed, items[i]) != Key(keyed, items[j])
  }

  /** `v` is a value of type `t`. Sizes are `size_t`. */
  ghost predicate Typed(t: Ty, v: Value)
    decreases t, 1
  {
    match t
    case Raw(size) => v.VRaw? && |v.raw| == size
    case AutoInt(signed, wide) => v.VInt? && IntInRange(signed, wide, v.number)
    case Str(width) => v.VStr? && width > 0 && |v.chars| % width == 0
    case List(e) => v.VItems? && |v.items| < WORD64 && AllTyped(e, v.items)
    case ForwardList(e) => v.VItems? && |v.items| < WORD64 && AllTyped(e, v.items)
    case Set(e, multi) => v.VItems? && |v.items| < WORD64 && AllTyped(e, v.items)
      && (multi || DistinctKeys(false, v.items))
    case Map(e, multi) =>
      v.VItems? && |v.items| < WORD64 && !Fundamental(e) && AllTyped(e, v.items)
        && (multi || DistinctKeys(true, v.items))
    case Optional(e) => v.VNone? || (v.VSome? && Typed(e, v.target))
    case Tuple(ts) => v.VFields? && EachTyped(ts, v.fields)
    case Struct(ts) => v.VFields? && EachTyped(ts, v.fields)
    case Ignore => v.VIgnored?
  }

  ghost predicate AllTyped(e: Ty, items: seq<Value>)
    decreases e, 2
  {
    forall i :: 0 <= i < |items| ==> Typed(e, items[i])
  }

  ghost predicate EachTyped(ts: seq<Ty>, vs: seq<Value>)
    decreases ts, 0
  {
    |ts| == |vs| && (ts != [] ==> EachTyped(Init(ts), Init(vs)) && Typed(Last(ts), Last(vs)))
  }

  // ---- Encoding ----

  /** An archive within an archive: its size, auto-sized, then its bytes. */
  function Prefixed(s: bytes): bytes {
    Encode(|s| % WORD64) + s
  }

  function EncodeValue(v: Value): bytes
    decreases v, 1
  {
    match v
    case VRaw(raw) => raw
    case VInt(i) => if Magnitude(i) < WORD64 then Encode(i) else []
    case VStr(chars) => chars
    case VItems(items) => Encode(|items| % WORD64) + EncodeItems(items)
    case VNone => [0]
    case VSome(target) => [1] + EncodeValue(target)
    case VFields(fields) => EncodeItems(fields)
    case VIgnored => []
  }

  /** Elements and fields: fundamentals inline, everything else as an archive of its own. */
  function EncodeItem(v: Value): bytes
    decreases v, 2
  {
    if FundamentalValue(v) || v.VIgnored? then EncodeValue(v) else Prefixed(EncodeValue(v))
  }

  function EncodeItems(vs: seq<Value>): bytes
    decreases vs, 0
  {
    if vs == [] then [] else EncodeItems(Init(vs)) + EncodeItem(Last(vs))
  }

  // ---- Decoding, on slices ----

  /** A decoded value and the number of bytes it took. */
  type Parsed = Option<(Value, nat)>

  /** The cast of the 64-bit object to the target integer type. */
  function Narrow(signed: bool, wide: bool, i: int): (r: int)
    requires InRange(signed, i)
    ensures IntInRange(signed, wide, r) && (wide ==> r == i) && (r - i) % 0x1_0000_0000 == 0
  {
    if wide then i
    else
      var low := i % WORD32;
      if signed && low >= 0x8000_0000 then low - WORD32 else low
  }

  /** Whether the encoding tells where it ends. Strings take the rest of their archive. */
  predicate SelfDelimiting(t: Ty) {
    match t
    case Str(_) => false
    case Optional(e) => SelfDelimiting(e)
    case _ => true
  }

  /** The bytes of the whole characters within `size` bytes: the number of characters is rounded down. */
  function WholeChars(size: nat, width: nat): (n: nat)
    ensures n <= size
  {
    if width == 0 then 0 else size - size % width
  }

  function Parse(t: Ty, s: bytes): (r: Parsed)
    ensures r.Some? ==> r.value.1 <= |s|
    decreases t, 0
  {
    match t
    case Raw(size) => if size <= |s| then Some((VRaw(s[..size]), size)) else None
    case AutoInt(signed, wide) => ParseInt(signed, wide, s)
    case Str(width) => if width == 0 then None else Some((VStr(s[..WholeChars(|s|, width)]), |s|))
    case List(e) => ParseContainer(e, s, true, false)
    case ForwardList(e) => ParseContainer(e, s, true, false)
    case Set(e, multi) => ParseContainer(e, s, multi, false)
    case Map(e, multi) => ParseContainer(e, s, multi, true)
    case Optional(e) =>
      if s == [] then None
      else if s[0] == 0 then Some((VNone, 1))
      else
        (match Parse(e, s[1..])
         case None => None
         case Some((v, used)) => Some((VSome(v), 1 + used)))
    case Tuple(ts) => ParseFields(ts, s)
    case Struct(ts) => ParseFields(ts, s)
    case Ignore => Some((VIgnored, 0))
  }

  function ParseInt(signed: bool, wide: bool, s: bytes): (r: Parsed)
    ensures r.Some? ==> r.value.1 <= |s|
  {
    match Decode(signed, s)
    case None => None
    case Some((i, used)) => Some((VInt(Narrow(signed, wide, i)), used))
  }

  function ParseContainer(e: Ty, s: bytes, multi: bool, keyed: bool): (r: Parsed)
    ensures r.Some? ==> r.value.1 <= |s|
    decreases e, 4
  {
    match Decode(false, s)
    case None => None
    case Some((n, used)) =>
      match ParseItems(e, s[used..], n)
      case None => None
      case Some((vs, more)) => Some((VItems(EmplaceAll(multi, keyed, vs)), used + more))
  }

  function ParseItems(e: Ty, s: bytes, n: nat): (r: Option<(seq<Value>, nat)>)
    ensures r.Some? ==> r.value.1 <= |s|
    decreases e, 3, n
  {
    if n == 0 then Some(([], 0))
    else
      match ParseItems(e, s, n - 1)
      case None => None
      case Some((vs, used)) =>
        match ParseItem(e, s[used..])
        case None => None
        case Some((v, more)) => Some((vs + [v], used + more))
  }

  function ParseItem(e: Ty, s: bytes): (r: Parsed)
    ensures r.Some? ==> r.value.1 <= |s|
    decreases e, 2
  {
    if Fundamental(e) || e.Ignore? then Parse(e, s)
    else
      match Decode(false, s)
      case None => None
      case Some((len, cost)) =>
        if cost + len > |s| then None
        else
          match Parse(e, s[cost..cost + len])
          case None => None
          case Some((v, _)) => Some((v, cost + len))
  }

  function ParseFields(ts: seq<Ty>, s: bytes): (r: Parsed)
    ensures r.Some? ==> r.value.1 <= |s|
    ensures r.Some? ==> r.value.0.VFields?
    decreases ts, 1
  {
    if ts == [] then Some((VFields([]), 0))
    else
      match ParseFields(Init(ts), s)
      case None => None
      case Some((vs, used)) =>
        match ParseItem(Last(ts), s[used..])
        case None => None
        case Some((v, more)) => Some((VFields(vs.fields + [v]), used + more))
  }
}
