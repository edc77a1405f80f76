/** The property multiplexer of libshims/ril_shim.cpp by the names its callers use: three
    properties of the platform are shared by two SIMs, the name of the second one's part ends
    in 2, and every other name is the platform's own.
 */
module PropertyNames {
  import opened PropertyMux

  predicate Shared(k: string) {
    k == "gsm.operator.numeric" || k == "gsm.sim.operator.numeric" || k == "gsm.network.type"
  }

  // -------------------------------------------------------------------- the places

  /** The first SIM's name of a shared property is item 0 of it, the second's item 1. */
  lemma {:induction false} SharedPlaces(k: string)
    requires Shared(k)
    ensures PlaceOf(k) == At(k, 0) && PlaceOf(k + "2") == At(k, 1)
  {
  }

  /** Only those six names have a place in a shared property. */
  lemma {:induction false} PlacedIff(key: string)
    ensures PlaceOf(key).At? <==> exists k :: Shared(k) && (key == k || key == k + "2")
  {
    SharedPlaces("gsm.operator.numeric");
    SharedPlaces("gsm.sim.operator.numeric");
    SharedPlaces("gsm.network.type");
    if PlaceOf(key).At? {
      var k := PlaceOf(key).key;
      assert Shared(k) && (key == k || key == k + "2");
    }
    if k :| Shared(k) && (key == k || key == k + "2") {
      SharedPlaces(k);
    }
  }

  /** Two names never share a place, and a name without one is not that of a shared property. */
  lemma {:induction false} PlacesDiffer(a: string, b: string)
    requires a != b && PlaceOf(a).At?
    ensures PlaceOf(a) != PlaceOf(b)
    ensures PlaceOf(b) == Elsewhere ==> PlaceOf(a).key != b
  {
  }

  /** Names without a place go straight to the platform. */
  lemma {:induction false} OtherNamesDirect(store: Store, key: string, value: string, default: string)
    requires forall k :: Shared(k) ==> key != k && key != k + "2"
    ensures Get(store, key, default) == if key in store && store[key] != [] then store[key] else default
    ensures Set(store, key, value) == if |value| < 92 then (store[key := value], true) else (store, false)
  {
    PlacedIff(key);
  }

  // ------------------------------------------------------------------ the text stored

  /** What is stored when the second SIM's part is set: the first one's, a comma, the value. */
  lemma {:induction false} SecondStored(store: Store, k: string, value: string)
    requires Shared(k) && |View(store, k)| <= 2
    ensures var first := if View(store, k) == [] then "" else View(store, k)[0];
            Set(store, k + "2", value)
            == if |first| + 1 + |value| < 92 then (store[k := first + "," + value], true) else (store, false)
  {
    hide View, Concat;
    SharedPlaces(k);
    var v := View(store, k);
    var first := if v == [] then "" else v[0];
    SetItemIs(store, k, 1, value);
    assert Updated(v, 1, value) == [first] + [value];
    ConcatCons(first, [value]);
    ConcatOne(value);
  }

  /** And when the first one's is set: the value, and the second one's behind a comma if
      there is one. */
  lemma {:induction false} FirstStored(store: Store, k: string, value: string)
    requires Shared(k) && |View(store, k)| <= 2
    ensures var text := if |View(store, k)| == 2 then value + "," + View(store, k)[1] else value;
            Set(store, k, value) == if |text| < 92 then (store[k := text], true) else (store, false)
  {
    hide View, Concat;
    SharedPlaces(k);
    var v := View(store, k);
    SetItemIs(store, k, 0, value);
    if |v| == 2 {
      assert Updated(v, 0, value) == [value] + [v[1]];
      ConcatCons(value, [v[1]]);
      ConcatOne(v[1]);
    } else {
      assert Updated(v, 0, value) == [value];
      ConcatOne(value);
    }
  }

  lemma {:induction false} SetItemIs(store: Store, k: string, index: nat, value: string)
    ensures SetItem(store, k, index, value) == RealSet(store, k, Concat(Updated(View(store, k), index, value)))
  {
    hide Split, Concat, Updated;
  }

  lemma {:induction false} ConcatOne(item: string)
    ensures Concat([item]) == item
  {
  }

  // ------------------------------------------------------------------ reading back

  /** Whatever name is set, to a value that is not empty, and has no comma where the property
      is shared, reads back. */
  lemma {:induction false} NamedReadBack(store: Store, key: string, value: string, default: string)
    requires Set(store, key, value).1 && value != [] && (PlaceOf(key).At? ==> CommaFree(value))
    ensures Get(Set(store, key, value).0, key, default) == value
  {
    hide GetItem, SetItem, View;
    match PlaceOf(key)
    case At(actual, index) => GetAfterSetIff(store, actual, index, value);
    case Elsewhere =>
  }

  /** And every other name that has a value keeps it. */
  lemma {:induction false} NamedOthersKept(store: Store, key: string, value: string, other: string, default: string)
    requires Set(store, key, value).1 && value != [] && (PlaceOf(key).At? ==> CommaFree(value))
    requires other != key && Get(store, other, "") != ""
    ensures Get(Set(store, key, value).0, other, default) == Get(store, other, default)
  {
    hide GetItem, SetItem, View;
    if PlaceOf(key).At? && PlaceOf(other).At? && PlaceOf(key).key == PlaceOf(other).key {
      PlacesDiffer(key, other);
      var k, i := PlaceOf(key).key, PlaceOf(other).index;
      GetFromView(store, k, i, "");
      NoItemInNothing(i);
      OtherSlotKeptIff(store, k, PlaceOf(key).index, value, i);
    } else {
      if PlaceOf(key).At? {
        PlacesDiffer(key, other);
      }
      if PlaceOf(other).At? {
        PlacesDiffer(other, key);
      }
      assert ActualKey(key) != ActualKey(other);
      OtherPropertiesUntouched(store, key, value, other, default);
    }
  }

  lemma {:induction false} NoItemInNothing(i: nat)
    ensures ItemOr(Split(""), i, "") == ""
  {
  }
}
