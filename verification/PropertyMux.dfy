/** The property multiplexer of libshims/ril_shim.cpp: the per-SIM properties of the
    radio library are items of one comma-separated property of the platform.
 */
module PropertyMux {

  const VALUE_MAX: nat := 92      // PROPERTY_VALUE_MAX

  // ------------------------------------------------------------- split and concat

  predicate CommaFree(s: string) { forall k :: 0 <= k < |s| ==> s[k] != ',' }

  predicate Items(v: seq<string>) { forall i :: 0 <= i < |v| ==> CommaFree(v[i]) }

  /** Where the next comma is, or the end. */
  function NextComma(s: string): (p: nat)
    ensures p <= |s| && (p < |s| ==> s[p] == ',') && forall k :: 0 <= k < p ==> s[k] != ','
  {
    if s == [] || s[0] == ',' then 0 else 1 + NextComma(s[1..])
  }

  /** What is left after the item that starts s: getline drops the delimiter. */
  function Rest(s: string): (r: string)
    ensures s != [] ==> |r| < |s|
  {
    var p := NextComma(s);
    if p < |s| then s[p + 1..] else []
  }

  function Split(s: string): (v: seq<string>)
    ensures Items(v)
    decreases |s|
  {
    if s == [] then [] else [s[..NextComma(s)]] + Split(Rest(s))
  }

  function Concat(v: seq<string>): string {
    if v == [] then [] else if |v| == 1 then v[0] else v[0] + [','] + Concat(v[1..])
  }

  /** The list without one trailing empty item. */
  function Trimmed(v: seq<string>): seq<string> {
    if v != [] && v[|v| - 1] == [] then v[..|v| - 1] else v
  }

  lemma {:induction false} SplitItem(item: string, tail: string)
    requires CommaFree(item)
    ensures Split(item + [','] + tail) == [item] + Split(tail)
    ensures item != [] ==> Split(item) == [item]
  {
    hide NextComma, Split;
    var s := item + [','] + tail;
    assert s[|item|] == ',' && forall k :: 0 <= k < |item| ==> s[k] == item[k];
    assert NextComma(s) == |item|;
    assert s[..|item|] == item && s[|item| + 1..] == tail;
    SplitStep(s);
    if item != [] {
      assert NextComma(item) == |item| && item[..|item|] == item;
      SplitStep(item);
      SplitStep([]);
      assert Split(Rest(item)) == [];
    }
  }

  lemma {:induction false} SplitStep(s: string)
    ensures Split(s) == if s == [] then [] else [s[..NextComma(s)]] + Split(Rest(s))
  {
    hide NextComma, Rest;
  }

  lemma {:induction false} TrimmedCons(v: seq<string>)
    requires |v| > 1
    ensures Trimmed(v) == [v[0]] + Trimmed(v[1..])
  {
    assert v[1..][|v| - 2] == v[|v| - 1];
    assert v == [v[0]] + v[1..] && v[..|v| - 1] == [v[0]] + v[1..][..|v| - 2];
  }

  /** Splitting undoes joining, up to one trailing empty item. */
  lemma {:induction false} SplitConcat(v: seq<string>)
    requires Items(v)
    ensures Split(Concat(v)) == Trimmed(v)
  {
    hide Split;
    if v == [] {
      SplitStep([]);
    } else if |v| == 1 {
      SplitItem(v[0], []);
      SplitStep([]);
      assert v == [v[0]];
    } else {
      SplitConcat(v[1..]);
      SplitItem(v[0], Concat(v[1..]));
      TrimmedCons(v);
    }
  }

  lemma {:induction false} ConcatCons(item: string, v: seq<string>)
    ensures Concat([item] + v) == if v == [] then item else item + [','] + Concat(v)
  {
    assert ([item] + v)[1..] == v;
  }

  lemma {:induction false} SplitParts(s: string)
    requires s != []
    ensures Split(s) == [s[..NextComma(s)]] + Split(Rest(s))
    ensures Rest(s) == [] ==> s == s[..NextComma(s)] || s == s[..NextComma(s)] + [',']
    ensures Rest(s) != [] ==> s == s[..NextComma(s)] + [','] + Rest(s)
  {
    hide NextComma, Split;
    SplitStep(s);
  }

  function Unterminated(s: string): string { if s != [] && s[|s| - 1] == ',' then s[..|s| - 1] else s }

  /** Joining undoes splitting, up to one trailing comma. */
  lemma {:induction false} ConcatSplit(s: string)
    ensures Concat(Split(s)) == Unterminated(s)
    decreases |s|
  {
    hide NextComma, Split, Concat, Rest;
    SplitStep([]);
    ConcatEmpty();
    if s != [] {
      SplitParts(s);
      var item, rest := s[..NextComma(s)], Rest(s);
      ConcatSplit(rest);
      ConcatCons(item, Split(rest));
      SplitEmptyIff(rest);
      assert CommaFree(item);
      if rest == [] {
        assert Unterminated(s) == item;
      } else {
        assert Unterminated(s) == item + [','] + Unterminated(rest);
      }
    }
  }

  lemma {:induction false} ConcatEmpty()
    ensures Concat([]) == []
  {
  }

  lemma {:induction false} SplitEmptyIff(s: string)
    ensures Split(s) == [] <==> s == []
  {
    SplitStep(s);
  }

  // --------------------------------------------------------------- the properties

  type Store = map<string, string>

  /** The platform's property_get: an unset or empty property gives the default. */
  function RealGet(store: Store, key: string, default: string): string {
    if key in store && store[key] != [] then store[key] else default
  }

  /** The platform's property_set: a value that is too long is refused. */
  function RealSet(store: Store, key: string, value: string): (Store, bool) {
    if |value| >= VALUE_MAX then (store, false) else (store[key := value], true)
  }

  datatype Place = Elsewhere | At(key: string, index: nat)

  /** KEY_MAP. */
  function PlaceOf(key: string): Place {
    if key == "gsm.operator.numeric" then At("gsm.operator.numeric", 0)
    else if key == "gsm.operator.numeric2" then At("gsm.operator.numeric", 1)
    else if key == "gsm.sim.operator.numeric" then At("gsm.sim.operator.numeric", 0)
    else if key == "gsm.sim.operator.numeric2" then At("gsm.sim.operator.numeric", 1)
    else if key == "gsm.network.type" then At("gsm.network.type", 0)
    else if key == "gsm.network.type2" then At("gsm.network.type", 1)
    else Elsewhere
  }

  function ItemOr(v: seq<string>, index: nat, default: string): string {
    if index < |v| then v[index] else default
  }

  /** property_get for an item of a shared property. */
  function GetItem(store: Store, key: string, index: nat, default: string): string {
    var value := RealGet(store, key, default);
    if |value| > 0 then ItemOr(Split(value), index, default) else value
  }

  function Get(store: Store, key: string, default: string): string {
    match PlaceOf(key)
    case At(actual, index) => GetItem(store, actual, index, default)
    case Elsewhere => RealGet(store, key, default)
  }

  /** The list after v.resize(index + 1) where needed and v[index] = value. */
  function Updated(v: seq<string>, index: nat, value: string): (r: seq<string>)
    ensures |r| == (if index < |v| then |v| else index + 1) && r[index] == value
    ensures forall j :: 0 <= j < |r| && j != index ==> r[j] == ItemOr(v, j, [])
  {
    seq(if index < |v| then |v| else index + 1, j requires 0 <= j => if j == index then value else ItemOr(v, j, []))
  }

  function SetItem(store: Store, key: string, index: nat, value: string): (Store, bool) {
    RealSet(store, key, Concat(Updated(Split(RealGet(store, key, [])), index, value)))
  }

  function Set(store: Store, key: string, value: string): (Store, bool) {
    match PlaceOf(key)
    case At(actual, index) => SetItem(store, actual, index, value)
    case Elsewhere => RealSet(store, key, value)
  }

  // --------------------------------------------------------------------- the laws

  /** The items a shared property holds. */
  function View(store: Store, key: string): seq<string> { Split(RealGet(store, key, [])) }

  /** property_get answers from the items. Where there are none it hands out the
      default, but cuts it at its commas too. */
  lemma {:induction false} GetFromView(store: Store, key: string, index: nat, default: string)
    ensures View(store, key) != [] ==> GetItem(store, key, index, default) == ItemOr(View(store, key), index, default)
    ensures View(store, key) == [] ==> GetItem(store, key, index, default) == ItemOr(Split(default), index, default)
    ensures View(store, key) == [] && CommaFree(default) ==> GetItem(store, key, index, default) == default
  {
    hide Split;
    SplitEmptyIff(RealGet(store, key, []));
    SplitEmptyIff(default);
    if CommaFree(default) && default != [] {
      SplitItem(default, []);
    }
  }

  lemma {:induction false} ViewAfterSet(store: Store, key: string, index: nat, value: string)
    requires SetItem(store, key, index, value).1 && CommaFree(value)
    ensures View(SetItem(store, key, index, value).0, key) == Trimmed(Updated(View(store, key), index, value))
  {
    hide Split, Concat, Updated;
    var v := Updated(View(store, key), index, value);
    assert Items(v) by {
      forall j | 0 <= j < |v|
        ensures CommaFree(v[j])
      {
        assert Items(View(store, key));
      }
    }
    SplitConcat(v);
  }

  /** Setting a slot and reading it back gives the value for every default, if and only
      if the value has no comma and is not empty, or is empty with an item behind it. */
  lemma {:induction false} GetAfterSetIff(store: Store, key: string, index: nat, value: string)
    requires SetItem(store, key, index, value).1
    ensures (forall default :: GetItem(SetItem(store, key, index, value).0, key, index, default) == value)
            <==> CommaFree(value) && (value != [] || index + 1 < |View(store, key)|)
  {
    hide CommaFree, View, GetItem, SetItem, Updated;
    var after := SetItem(store, key, index, value).0;
    if !CommaFree(value) {
      ItemsAreCommaFree(after, key, index);
      assert GetItem(after, key, index, []) != value;
    } else {
      ViewAfterSet(store, key, index, value);
      var v := Updated(View(store, key), index, value);
      if value != [] || index + 1 < |View(store, key)| {
        forall default: string
          ensures GetItem(after, key, index, default) == value
        {
          GetFromView(after, key, index, default);
        }
      } else {
        EmptyIsCommaFree();
        GetFromView(after, key, index, "x");
        assert GetItem(after, key, index, "x") == "x";
      }
    }
  }

  lemma {:induction false} EmptyIsCommaFree()
    ensures CommaFree([]) && CommaFree("x")
  {
  }

  /** A slot never shows a comma, whatever was stored. */
  lemma {:induction false} ItemsAreCommaFree(store: Store, key: string, index: nat)
    ensures CommaFree(GetItem(store, key, index, []))
  {
    hide Split;
    GetFromView(store, key, index, []);
    assert Items(View(store, key));
    EmptyIsCommaFree();
  }

  /** A default whose item `other` is not the default itself. */
  lemma {:induction false} CutDefault(other: nat) returns (default: string)
    requires other > 0
    ensures ItemOr(Split(default), other, default) != default
  {
    hide Split, Concat, CommaFree;
    var v := seq(other, _ => "") + ["x"];
    EmptyIsCommaFree();
    default := Concat(v);
    SplitConcat(v);
    SplitItem("x", []);
    assert |Split(default)| == other + 1 && Split(default)[other] == "x";
  }

  /** A default that is not the item, and is not cut either. */
  lemma {:induction false} OtherDefault(item: string, index: nat) returns (default: string)
    requires CommaFree(item)
    ensures default != item && ItemOr(Split(default), index, default) == default
  {
    default := item + "x";
    hide Split;
    SplitItem(default, []);
  }

  /** A slot reads the same from two stores for every default, if and only if both have
      the same item there, or neither has one and both or neither have any item at all. */
  lemma {:induction false} SameForAllDefaults(store: Store, after: Store, key: string, other: nat)
    ensures (forall default :: GetItem(after, key, other, default) == GetItem(store, key, other, default))
            <==> var v, w := View(store, key), View(after, key);
                 if other < |v| then other < |w| && w[other] == v[other] else other >= |w| && (v == [] <==> w == [])
  {
    hide Split, GetItem, CommaFree;
    var v, w := View(store, key), View(after, key);
    assert Items(v) && Items(w);
    hide View;
    forall default: string
      ensures GetItem(store, key, other, default) == ItemOr(if v == [] then Split(default) else v, other, default)
      ensures GetItem(after, key, other, default) == ItemOr(if w == [] then Split(default) else w, other, default)
    {
      GetFromView(store, key, other, default);
      GetFromView(after, key, other, default);
    }
    if other < |v| && other < |w| {
      assert GetItem(after, key, other, []) == w[other] && GetItem(store, key, other, []) == v[other];
    } else if other < |v| || other < |w| {
      var default := OtherDefault(if other < |v| then v[other] else w[other], other);
      assert GetItem(after, key, other, default) != GetItem(store, key, other, default);
    } else if (v == []) != (w == []) {
      var default := CutDefault(other);
      assert GetItem(after, key, other, default) != GetItem(store, key, other, default);
    }
  }

  /** Another slot of the same property keeps its value for every default, if and only if
      it has a non-empty item, or an empty one that is not the last, or lies before the
      slot set; or it has none, lies behind that slot, and the set neither fills an empty
      property nor empties it. */
  lemma {:induction false} OtherSlotKeptIff(store: Store, key: string, index: nat, value: string, other: nat)
    requires SetItem(store, key, index, value).1 && CommaFree(value) && other != index
    ensures (forall default ::
               GetItem(SetItem(store, key, index, value).0, key, other, default) == GetItem(store, key, other, default))
            <==> var v := View(store, key);
                 if other < |v| then v[other] != [] || other + 1 < |v| || other < index
                 else index < other && (v == [] <==> index == 0 && value == [] && |v| <= 1)
  {
    hide CommaFree, View, GetItem, SetItem, Updated;
    var after := SetItem(store, key, index, value).0;
    ViewAfterSet(store, key, index, value);
    SameForAllDefaults(store, after, key, other);
  }

  // ------------------------------------------------------------ values with commas

  /** All parts of a text between its commas. */
  function Cut(s: string): (v: seq<string>)
    ensures v != [] && Items(v) && (CommaFree(s) ==> v == [s])
    decreases |s|
  {
    var p := NextComma(s);
    if p == |s| then [s] else [s[..p]] + Cut(s[p + 1..])
  }

  lemma {:induction false} ConcatJoin(a: seq<string>, b: seq<string>)
    requires b != []
    ensures Concat(a + b) == if a == [] then Concat(b) else Concat(a) + [','] + Concat(b)
  {
    if a == [] {
      assert a + b == b;
    } else {
      ConcatJoin(a[1..], b);
      assert a + b == [a[0]] + (a[1..] + b) && a == [a[0]] + a[1..];
      ConcatCons(a[0], a[1..] + b);
      ConcatCons(a[0], a[1..]);
    }
  }

  lemma {:induction false} ConcatOfCut(s: string)
    ensures Concat(Cut(s)) == s
    decreases |s|
  {
    hide NextComma, Concat;
    var p := NextComma(s);
    if p < |s| {
      ConcatOfCut(s[p + 1..]);
      ConcatCons(s[..p], Cut(s[p + 1..]));
      assert s == s[..p] + [','] + s[p + 1..];
    } else {
      ConcatCons(s, []);
      assert [s] + [] == [s];
    }
  }

  /** The items after any set that succeeds: a value with commas takes several places and
      pushes the items behind it back. */
  lemma {:induction false} ViewAfterAnySet(store: Store, key: string, index: nat, value: string)
    requires SetItem(store, key, index, value).1
    ensures var v := Updated(View(store, key), index, value);
            View(SetItem(store, key, index, value).0, key) == Trimmed(v[..index] + Cut(value) + v[index + 1..])
  {
    hide Split, Concat, Cut;
    var v := Updated(View(store, key), index, value);
    var w := v[..index] + Cut(value) + v[index + 1..];
    assert Items(View(store, key)) && Items(Cut(value));
    hide Updated;
    PartsAreItems(v[..index], Cut(value), v[index + 1..]);
    SplitConcat(w);
    ConcatOfParts(v[..index], value, v[index + 1..]);
    assert v == v[..index] + [value] + v[index + 1..];
  }

  lemma {:induction false} PartsAreItems(a: seq<string>, b: seq<string>, c: seq<string>)
    requires Items(a) && Items(b) && Items(c)
    ensures Items(a + b + c)
  {
  }

  lemma {:induction false} ConcatOfParts(a: seq<string>, value: string, b: seq<string>)
    ensures Concat(a + Cut(value) + b) == Concat(a + [value] + b)
  {
    hide Concat, Cut;
    ConcatOfCut(value);
    ConcatCons(value, []);
    assert [value] + [] == [value];
    assert Cut(value) != [];
    assert a + Cut(value) + b == a + (Cut(value) + b) && a + [value] + b == a + ([value] + b);
    ConcatJoin(a, Cut(value) + b);
    ConcatJoin(a, [value] + b);
    if b != [] {
      ConcatJoin(Cut(value), b);
      ConcatJoin([value], b);
    } else {
      assert Cut(value) + b == Cut(value) && [value] + b == [value];
    }
  }

  /** Another slot keeps its value for every default through a set of any value, if and
      only if the item that ends up in its place is the one that was there, or there is
      none before and after. */
  lemma {:induction false} OtherSlotKeptAnyValue(store: Store, key: string, index: nat, value: string, other: nat)
    requires SetItem(store, key, index, value).1
    ensures (forall default ::
               GetItem(SetItem(store, key, index, value).0, key, other, default) == GetItem(store, key, other, default))
            <==> var v := View(store, key);
                 var u := Updated(v, index, value);
                 var w := Trimmed(u[..index] + Cut(value) + u[index + 1..]);
                 if other < |v| then other < |w| && w[other] == v[other] else other >= |w| && (v == [] <==> w == [])
  {
    hide View, GetItem, SetItem, Updated, Cut;
    ViewAfterAnySet(store, key, index, value);
    SameForAllDefaults(store, SetItem(store, key, index, value).0, key, other);
  }

  /** The last of two sets on one slot wins, whatever the first one was. */
  lemma {:induction false} LastSetWins(store: Store, key: string, index: nat, first: string, second: string,
                                       default: string)
    requires SetItem(SetItem(store, key, index, first).0, key, index, second).1
    requires CommaFree(second) && second != []
    ensures GetItem(SetItem(SetItem(store, key, index, first).0, key, index, second).0, key, index, default) == second
  {
    GetAfterSetIff(SetItem(store, key, index, first).0, key, index, second);
  }

  /** Writing back what a slot holds changes nothing in a property without a trailing
      comma. */
  lemma {:induction false} SetWhatIsThere(store: Store, key: string, index: nat)
    requires key in store && |store[key]| < VALUE_MAX && index < |View(store, key)|
             && Unterminated(store[key]) == store[key]
    ensures SetItem(store, key, index, View(store, key)[index]) == (store, true)
  {
    hide Split, Concat, Updated;
    var v := View(store, key);
    assert Updated(v, index, v[index]) == v;
    ConcatSplit(store[key]);
    SplitStep([]);
    assert store[key := store[key]] == store;
  }

  function ActualKey(key: string): string {
    match PlaceOf(key)
    case At(actual, _) => actual
    case Elsewhere => key
  }

  /** Setting one key leaves every key that is kept in another property alone. */
  lemma {:induction false} OtherPropertiesUntouched(store: Store, key: string, value: string, other: string,
                                                    default: string)
    requires ActualKey(key) != ActualKey(other)
    ensures Get(Set(store, key, value).0, other, default) == Get(store, other, default)
  {
    hide PlaceOf, Split, Concat, Updated;
  }

  // --------------------------------------------------------------------- the code

  /** split: getline until it fails. */
  method SplitValue(s: string) returns (result: seq<string>)
    ensures result == Split(s)
  {
    hide NextComma, Split, Rest;
    result := [];
    var ss := s;
    while ss != []
      invariant result + Split(ss) == Split(s)
      decreases |ss|
    {
      SplitStep(ss);
      var item := ss[..NextComma(ss)];
      assert result + ([item] + Split(Rest(ss))) == result + [item] + Split(Rest(ss));
      result := result + [item];
      ss := Rest(ss);
    }
    SplitStep(ss);
  }

  lemma {:induction false} ConcatAppend(v: seq<string>, item: string)
    requires v != []
    ensures Concat(v + [item]) == Concat(v) + [','] + item
  {
    var all := v + [item];
    if |v| == 1 {
      assert all == [v[0], item] && all[1..] == [item];
    } else {
      assert all[1..] == v[1..] + [item] && all[0] == v[0];
      ConcatAppend(v[1..], item);
      assert Concat(all) == v[0] + [','] + Concat(v[1..] + [item]);
      assert v[0] + [','] + (Concat(v[1..]) + [','] + item) == v[0] + [','] + Concat(v[1..]) + [','] + item;
    }
  }

  /** concat. */
  method ConcatItems(v: seq<string>) returns (s: string)
    ensures s == Concat(v)
  {
    hide Concat;
    ConcatEmpty();
    if |v| == 0 {
      return [];
    }
    ConcatCons(v[0], []);
    assert v[..1] == [v[0]] + [];
    s := v[0];
    for i := 1 to |v|
      invariant s == Concat(v[..i])
    {
      ConcatAppend(v[..i], v[i]);
      assert v[..i + 1] == v[..i] + [v[i]];
      s := s + [','] + v[i];
    }
    assert v[..|v|] == v;
  }

  class Properties {
    var store: Store

    constructor ()
      ensures store == map[]
    {
      store := map[];
    }

    /** property_get; the value it stores in the caller's buffer. */
    method PropertyGet(key: string, default: string) returns (value: string)
      ensures value == Get(store, key, default)
    {
      hide Split;
      match PlaceOf(key)
      case At(actual, index) =>
        value := RealGet(store, actual, default);
        if |value| > 0 {
          var v := SplitValue(value);
          value := if index < |v| then v[index] else default;
        }
      case Elsewhere =>
        value := RealGet(store, key, default);
    }

    /** property_set. */
    method PropertySet(key: string, value: string) returns (ok: bool)
      modifies this
      ensures (store, ok) == Set(old(store), key, value)
    {
      hide Split, Concat;
      match PlaceOf(key)
      case At(actual, index) =>
        var v := SplitValue(RealGet(store, actual, []));
        ghost var before := v;
        if !(index < |v|) {
          v := v + seq(index + 1 - |v|, _ => []);
        }
        v := v[index := value];
        assert v == Updated(before, index, value);
        var actualValue := ConcatItems(v);
        var r := RealSet(store, actual, actualValue);
        store, ok := r.0, r.1;
      case Elsewhere =>
        var r := RealSet(store, key, value);
        store, ok := r.0, r.1;
    }
  }
}
