/** Decoding inverts encoding, for every type of any depth. */
module SerialRoundTrip {
  import opened Bytes
  import opened AutoSize
  import opened SerialTypes

  /**
   The round trip. An archive that holds exactly the encoding gives back the value; when the type is self-delimiting,
   anything may follow, and it is left alone.
   */
  lemma {:induction false} ParseEncode(t: Ty, v: Value, rest: bytes)
    requires Typed(t, v) && |EncodeValue(v)| < WORD64
    requires rest == [] || SelfDelimiting(t)
    ensures Parse(t, EncodeValue(v) + rest) == Some((v, |EncodeValue(v)|))
    decreases t, 0
  {
    hide Encode, Decode, EncodeItems, ParseContainer, ParseFields;
    match t
    case Raw(size) => assert (v.raw + rest)[..size] == v.raw;
    case AutoInt(signed, wide) => RoundTrip(signed, v.number, rest);
    case Str(width) => assert v.chars + rest == v.chars && v.chars[..|v.chars|] == v.chars;
    case List(e) => ParseContainerEncode(e, v, rest, true, false);
    case ForwardList(e) => ParseContainerEncode(e, v, rest, true, false);
    case Set(e, multi) => ParseContainerEncode(e, v, rest, multi, false);
    case Map(e, multi) => ParseContainerEncode(e, v, rest, multi, true);
    case Optional(e) => ParseOptionalEncode(e, v, rest);
    case Tuple(ts) => ParseFieldsEncode(ts, v.fields, rest);
    case Struct(ts) => ParseFieldsEncode(ts, v.fields, rest);
    case Ignore =>
  }

  lemma {:induction false} ParseOptionalEncode(e: Ty, v: Value, rest: bytes)
    requires Typed(Optional(e), v) && |EncodeValue(v)| < WORD64
    requires rest == [] || SelfDelimiting(e)
    ensures Parse(Optional(e), EncodeValue(v) + rest) == Some((v, |EncodeValue(v)|))
    decreases e, 5
  {
    hide Encode, Decode, EncodeItems, ParseContainer, ParseFields;
    if v.VSome? {
      assert (EncodeValue(v) + rest)[1..] == EncodeValue(v.target) + rest;
      ParseEncode(e, v.target, rest);
    }
  }

  lemma {:induction false} ParseContainerEncode(e: Ty, v: Value, rest: bytes, multi: bool, keyed: bool)
    requires v.VItems? && |v.items| < WORD64 && AllTyped(e, v.items)
    requires multi || DistinctKeys(keyed, v.items)
    requires |EncodeValue(v)| < WORD64
    ensures ParseContainer(e, EncodeValue(v) + rest, multi, keyed) == Some((v, |EncodeValue(v)|))
    decreases e, 4
  {
    hide Encode, Decode, ParseItems, EncodeItems, EmplaceAll, Typed, EncodeItem, ParseItem, Parse;
    var n := |v.items|;
    var size, body := Encode(n), EncodeItems(v.items);
    var s := EncodeValue(v) + rest;
    Concat3(size, body, rest);
    RoundTrip(false, n, body + rest);
    assert s[|size|..] == body + rest;
    ParseItemsEncode(e, v.items, rest);
    EmplaceAllDistinct(multi, keyed, v.items);
  }

  lemma {:induction false} ParseItemsEncode(e: Ty, vs: seq<Value>, rest: bytes)
    requires AllTyped(e, vs) && |EncodeItems(vs)| < WORD64
    ensures ParseItems(e, EncodeItems(vs) + rest, |vs|) == Some((vs, |EncodeItems(vs)|))
    decreases e, 3, |vs|
  {
    hide Encode, Decode, EncodeItem, EncodeItems, ParseItem, ParseItems, Typed, AllTyped;
    if vs == [] {
      ParseNothing(e, rest);
    } else {
      var others, last := EncodeItems(Init(vs)), EncodeItem(Last(vs));
      ItemsOfLonger(e, vs);
      Behind(others, last, rest);
      ParseItemsEncode(e, Init(vs), last + rest);
      ParseItemEncode(e, Last(vs), rest);
      ParseOneMore(e, EncodeItems(vs) + rest, Init(vs), |others|, Last(vs), |last|);
    }
  }

  lemma ParseNothing(e: Ty, rest: bytes)
    ensures EncodeItems([]) == [] && ParseItems(e, EncodeItems([]) + rest, 0) == Some(([], 0))
  {
  }

  lemma ItemsOfLonger(e: Ty, vs: seq<Value>)
    requires vs != [] && AllTyped(e, vs)
    ensures AllTyped(e, Init(vs)) && Typed(e, Last(vs)) && Init(vs) + [Last(vs)] == vs
    ensures EncodeItems(vs) == EncodeItems(Init(vs)) + EncodeItem(Last(vs))
  {
    hide Typed, EncodeItem, EncodeItems;
    EncodeLonger(vs);
  }

  lemma ParseOneMore(e: Ty, s: bytes, vs: seq<Value>, used: nat, v: Value, more: nat)
    requires ParseItems(e, s, |vs|) == Some((vs, used)) && used <= |s| && ParseItem(e, s[used..]) == Some((v, more))
    ensures ParseItems(e, s, |vs| + 1) == Some((vs + [v], used + more))
  {
    hide ParseItem;
  }

  lemma Behind(first: bytes, second: bytes, rest: bytes)
    ensures first + second + rest == first + (second + rest)
    ensures (first + second + rest)[|first|..] == second + rest
  {
  }

  lemma {:induction false} ParseItemEncode(e: Ty, v: Value, rest: bytes)
    requires Typed(e, v) && |EncodeItem(v)| < WORD64
    ensures ParseItem(e, EncodeItem(v) + rest) == Some((v, |EncodeItem(v)|))
    decreases e, 2
  {
    hide Encode, Decode, EncodeItems, ParseItems, ParseFields, ParseContainer;
    if Fundamental(e) || e.Ignore? {
      ParseEncode(e, v, rest);
    } else {
      var body := EncodeValue(v);
      var size := Encode(|body|);
      var s := EncodeItem(v) + rest;
      InnerTyped(e, v);
      Concat3(size, body, rest);
      RoundTrip(false, |body|, body + rest);
      assert s[|size|..|size| + |body|] == body == body + [];
      ParseEncode(e, v, []);
      hide Parse, ParseItem, Typed, EncodeValue;
      ParseInner(e, s, |body|, |size|, v, |body|);
    }
  }

  /** What is not fundamental by its type is not fundamental as a value. */
  lemma InnerTyped(e: Ty, v: Value)
    requires Typed(e, v) && !Fundamental(e) && !e.Ignore?
    ensures EncodeItem(v) == Prefixed(EncodeValue(v))
  {
    hide Encode, EncodeValue, AllTyped, EachTyped, DistinctKeys;
  }

  lemma ParseInner(e: Ty, s: bytes, len: nat, cost: nat, v: Value, used: nat)
    requires !Fundamental(e) && !e.Ignore? && Decode(false, s) == Some((len, cost)) && cost + len <= |s|
    requires Parse(e, s[cost..cost + len]) == Some((v, used))
    ensures ParseItem(e, s) == Some((v, cost + len))
  {
    hide Decode, Parse;
  }

  lemma {:induction false} ParseFieldsEncode(ts: seq<Ty>, vs: seq<Value>, rest: bytes)
    requires EachTyped(ts, vs) && |EncodeItems(vs)| < WORD64
    ensures ParseFields(ts, EncodeItems(vs) + rest) == Some((VFields(vs), |EncodeItems(vs)|))
    decreases ts, 1
  {
    hide Encode, Decode, EncodeItem, EncodeItems, ParseItem, ParseFields, Typed, EachTyped;
    if ts == [] {
      ParseNoFields(vs, rest);
    } else {
      FieldsOfLonger(ts, vs);
      var others, last := EncodeItems(Init(vs)), EncodeItem(Last(vs));
      Behind(others, last, rest);
      ParseFieldsEncode(Init(ts), Init(vs), last + rest);
      ParseItemEncode(Last(ts), Last(vs), rest);
      ParseOneField(ts, EncodeItems(vs) + rest, Init(vs), |others|, Last(vs), |last|);
    }
  }

  lemma ParseNoFields(vs: seq<Value>, rest: bytes)
    requires EachTyped([], vs)
    ensures ParseFields([], EncodeItems(vs) + rest) == Some((VFields(vs), |EncodeItems(vs)|))
  {
  }

  lemma FieldsOfLonger(ts: seq<Ty>, vs: seq<Value>)
    requires ts != [] && EachTyped(ts, vs)
    ensures vs != [] && EachTyped(Init(ts), Init(vs)) && Typed(Last(ts), Last(vs)) && Init(vs) + [Last(vs)] == vs
    ensures EncodeItems(vs) == EncodeItems(Init(vs)) + EncodeItem(Last(vs))
  {
    hide Typed, EncodeItem, EncodeItems;
    EncodeLonger(vs);
  }

  lemma EncodeLonger(vs: seq<Value>)
    requires vs != []
    ensures EncodeItems(vs) == EncodeItems(Init(vs)) + EncodeItem(Last(vs))
  {
    hide EncodeItem;
  }

  lemma ParseOneField(ts: seq<Ty>, s: bytes, vs: seq<Value>, used: nat, v: Value, more: nat)
    requires ts != [] && used <= |s|
    requires ParseFields(Init(ts), s) == Some((VFields(vs), used)) && ParseItem(Last(ts), s[used..]) == Some((v, more))
    ensures ParseFields(ts, s) == Some((VFields(vs + [v]), used + more))
  {
    hide Parse, ParseItem, ParseItems, ParseContainer, Init, Last, Decode, Fundamental, EncodeItem;
  }

  /** Emplacing elements with distinct keys keeps all of them. */
  lemma {:induction false} EmplaceAllDistinct(multi: bool, keyed: bool, vs: seq<Value>)
    requires multi || DistinctKeys(keyed, vs)
    ensures EmplaceAll(multi, keyed, vs) == vs
    decreases |vs|
  {
    if vs != [] {
      EmplaceAllDistinct(multi, keyed, Init(vs));
      assert Init(vs) + [Last(vs)] == vs;
    }
  }
}
