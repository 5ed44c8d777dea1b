/** Sets and maps on the wire: iteration order does not matter, and of elements with one key the first wins. */
module SerialContainers {
  import opened Bytes
  import opened AutoSize
  import opened SerialTypes
  import SerialRoundTrip

  /** The first of the elements with its key. */
  ghost predicate FirstOfKey(keyed: bool, vs: seq<Value>, v: Value) {
    exists i :: 0 <= i < |vs| && IsFirst(keyed, vs, i) && vs[i] == v
  }

  ghost predicate IsFirst(keyed: bool, vs: seq<Value>, i: nat)
    requires i < |vs|
  {
    forall j :: 0 <= j < i ==> Key(keyed, vs[j]) != Key(keyed, vs[i])
  }

  /**
   Whatever arrives, a container without duplicates ends up with one element per key that arrived, the first one of
   that key, and with nothing else.
   */
  lemma {:induction false} EmplaceKeepsFirsts(keyed: bool, vs: seq<Value>)
    ensures var r := EmplaceAll(false, keyed, vs);
            && DistinctKeys(keyed, r)
            && (forall v :: v in r <==> FirstOfKey(keyed, vs, v))
            && (forall key :: HasKey(keyed, r, key) <==> HasKey(keyed, vs, key))
    decreases |vs|
  {
    if vs != [] {
      var init, last := Init(vs), Last(vs);
      var before := EmplaceAll(false, keyed, init);
      EmplaceKeepsFirsts(keyed, init);
      forall v
        ensures FirstOfKey(keyed, vs, v)
          <==> FirstOfKey(keyed, init, v) || (v == last && !HasKey(keyed, init, Key(keyed, last)))
      {
        FirstsOfLonger(keyed, vs, v);
      }
      forall key
        ensures HasKey(keyed, vs, key) <==> HasKey(keyed, init, key) || key == Key(keyed, last)
        ensures HasKey(keyed, before + [last], key) <==> HasKey(keyed, before, key) || key == Key(keyed, last)
      {
        KeysOfLonger(keyed, init, last, key);
        KeysOfLonger(keyed, before, last, key);
        assert vs == init + [last];
      }
    }
  }

  lemma KeysOfLonger(keyed: bool, items: seq<Value>, v: Value, key: Value)
    ensures HasKey(keyed, items + [v], key) <==> HasKey(keyed, items, key) || key == Key(keyed, v)
  {
    var longer := items + [v];
    if HasKey(keyed, items, key) {
      var i :| 0 <= i < |items| && Key(keyed, items[i]) == key;
      assert longer[i] == items[i];
    }
    assert longer[|items|] == v;
  }

  lemma FirstsOfLonger(keyed: bool, vs: seq<Value>, v: Value)
    requires vs != []
    ensures FirstOfKey(keyed, vs, v)
       <==> FirstOfKey(keyed, Init(vs), v) || (v == Last(vs) && !HasKey(keyed, Init(vs), Key(keyed, Last(vs))))
  {
    hide Key, FirstOfKey, HasKey, IsFirst;
    if FirstOfKey(keyed, Init(vs), v) {
      FirstStays(keyed, vs, v);
    }
    if FirstOfKey(keyed, vs, v) {
      FirstIsOld(keyed, vs, v);
    }
    if !HasKey(keyed, Init(vs), Key(keyed, Last(vs))) {
      LastIsFirst(keyed, vs);
    }
  }

  lemma FirstStays(keyed: bool, vs: seq<Value>, v: Value)
    requires vs != [] && FirstOfKey(keyed, Init(vs), v)
    ensures FirstOfKey(keyed, vs, v)
  {
    hide Key;
    var i :| 0 <= i < |Init(vs)| && IsFirst(keyed, Init(vs), i) && Init(vs)[i] == v;
    assert IsFirst(keyed, vs, i) && vs[i] == v;
  }

  lemma LastIsFirst(keyed: bool, vs: seq<Value>)
    requires vs != [] && !HasKey(keyed, Init(vs), Key(keyed, Last(vs)))
    ensures FirstOfKey(keyed, vs, Last(vs))
  {
    hide Key;
    var n := |vs| - 1;
    forall j | 0 <= j < n
      ensures Key(keyed, vs[j]) != Key(keyed, vs[n])
    {
      assert Init(vs)[j] == vs[j];
    }
    assert IsFirst(keyed, vs, n) && vs[n] == Last(vs);
  }

  lemma FirstIsOld(keyed: bool, vs: seq<Value>, v: Value)
    requires vs != [] && FirstOfKey(keyed, vs, v)
    ensures FirstOfKey(keyed, Init(vs), v) || (v == Last(vs) && !HasKey(keyed, Init(vs), Key(keyed, Last(vs))))
  {
    hide Key;
    var init := Init(vs);
    var i :| 0 <= i < |vs| && IsFirst(keyed, vs, i) && vs[i] == v;
    if i < |init| {
      assert init[i] == v;
      assert IsFirst(keyed, init, i);
    } else {
      forall j | 0 <= j < |init|
        ensures Key(keyed, init[j]) != Key(keyed, v)
      {
        assert init[j] == vs[j];
      }
    }
  }

  /** Sets and maps, with and without duplicates. */
  predicate Unordered(t: Ty) {
    t.Set? || t.Map?
  }

  /**
   Two iteration orders of one collection: both are values of the type, and whichever is written, what is decoded holds
   the same elements with the same multiplicities.
   */
  lemma AnyIterationOrder(t: Ty, items: seq<Value>, items': seq<Value>)
    requires Unordered(t) && Typed(t, VItems(items)) && multiset(items') == multiset(items)
    requires |EncodeValue(VItems(items'))| < WORD64
    ensures Typed(t, VItems(items'))
    ensures var r := Parse(t, EncodeValue(VItems(items')));
            && r.Some? && r.value.0.VItems? && r.value.1 == |EncodeValue(VItems(items'))|
            && multiset(r.value.0.items) == multiset(items)
  {
    SamePermutation(items, items');
    if t.Set? {
      if !t.multi {
        DistinctInAnyOrder(false, items, items');
      }
    } else if !t.multi {
      DistinctInAnyOrder(true, items, items');
    }
    TypedInAnyOrder(t, items, items');
    SerialRoundTrip.ParseEncode(t, VItems(items'), []);
    assert EncodeValue(VItems(items')) + [] == EncodeValue(VItems(items'));
  }

  lemma TypedInAnyOrder(t: Ty, items: seq<Value>, items': seq<Value>)
    requires Unordered(t) && Typed(t, VItems(items)) && |items'| == |items|
    requires forall v :: v in items' ==> v in items
    requires !t.multi ==> DistinctKeys(t.Map?, items')
    ensures Typed(t, VItems(items'))
  {
    var e := if t.Set? then t.elem else t.entry;
    forall i | 0 <= i < |items'|
      ensures Typed(e, items'[i])
    {
      assert items'[i] in items;
      assert AllTyped(e, items);
    }
    assert AllTyped(e, items');
  }

  lemma SamePermutation(items: seq<Value>, items': seq<Value>)
    requires multiset(items') == multiset(items)
    ensures |items'| == |items| && forall v :: v in items' ==> v in items
  {
    assert |items'| == |multiset(items')| && |items| == |multiset(items)|;
    forall v | v in items'
      ensures v in items
    {
      assert v in multiset(items');
    }
  }

  lemma DistinctInAnyOrder(keyed: bool, items: seq<Value>, items': seq<Value>)
    requires DistinctKeys(keyed, items) && multiset(items') == multiset(items)
    ensures DistinctKeys(keyed, items')
  {
    forall i, j | 0 <= i < j < |items'|
      ensures Key(keyed, items'[i]) != Key(keyed, items'[j])
    {
      var v, w := items'[i], items'[j];
      assert v in multiset(items) && w in multiset(items);
      if v == w {
        TwoPlaces(items', i, j);
        OncePerKey(keyed, items, v);
      } else {
        var m :| 0 <= m < |items| && items[m] == v;
        var n :| 0 <= n < |items| && items[n] == w;
      }
    }
  }

  lemma TwoPlaces(items: seq<Value>, i: nat, j: nat)
    requires i < j < |items| && items[i] == items[j]
    ensures multiset(items)[items[i]] >= 2
  {
    assert items == items[..j] + [items[j]] + items[j + 1..];
    assert multiset(items) == multiset(items[..j]) + multiset([items[j]]) + multiset(items[j + 1..]);
    assert items[..j][i] == items[i];
    assert items[i] in multiset(items[..j]);
  }

  lemma {:induction false} OncePerKey(keyed: bool, items: seq<Value>, v: Value)
    requires DistinctKeys(keyed, items)
    ensures multiset(items)[v] <= 1
    decreases |items|
  {
    if items != [] {
      var init, last := Init(items), Last(items);
      OncePerKey(keyed, init, v);
      assert items == init + [last];
      assert multiset(items) == multiset(init) + multiset{last};
      if v == last {
        forall i | 0 <= i < |init|
          ensures init[i] != v
        {
          assert init[i] == items[i];
        }
        assert v !in init && v !in multiset(init);
      }
    }
  }
}
