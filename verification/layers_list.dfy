/** The WorldBuilder layer list (`LayersList`): named layers, each shown or
    hidden and holding map objects and polygon triggers. Layer names are
    compared ignoring case; the default object layer and the default trigger
    layer cannot be removed. Map objects are identified by number (their
    pointers); the tree view is left out. */
module LayersList {
  import opened Common
  import opened Strings

  type ObjId = nat

  const UnmutableDefaultLayerName := "Default Object Layer"
  const TriggerLayerName := "Default Trigger Layer"

  datatype Layer = Layer(name: string, show: bool, objects: seq<ObjId>, triggers: seq<ObjId>)

  /** The list with the two names that may change (`TheDefaultLayerName`,
      `TheActiveLayerName`) and each object's `objectLayer` property. */
  datatype LayerState = LayerState(layers: seq<Layer>, defaultName: string, activeName: string,
                                   objectLayer: map<ObjId, string>)

  // ---------------------------------------------------------------------
  // Finding layers and objects

  /** The first layer from `from` whose lower-cased name is `key`. */
  function FindKeyFrom(ls: seq<Layer>, key: string, from: nat): (r: Option<nat>)
    requires from <= |ls|
    ensures r.Some? ==> from <= r.value < |ls| && LowerString(ls[r.value].name) == key &&
                        forall j :: from <= j < r.value ==> LowerString(ls[j].name) != key
    ensures r.None? ==> forall j :: from <= j < |ls| ==> LowerString(ls[j].name) != key
    decreases |ls| - from
  {
    if from == |ls| then None
    else if LowerString(ls[from].name) == key then Some(from)
    else FindKeyFrom(ls, key, from + 1)
  }

  /** `findLayerNamed`: nothing for an empty name, else the first layer
      whose name matches ignoring case. */
  function FindLayer(ls: seq<Layer>, name: string): (r: Option<nat>)
    ensures r.Some? ==> r.value < |ls| && EqualsNoCase(ls[r.value].name, name) &&
                        forall j :: 0 <= j < r.value ==> !EqualsNoCase(ls[j].name, name)
    ensures r.None? <==> name == [] || forall j :: 0 <= j < |ls| ==> !EqualsNoCase(ls[j].name, name)
  {
    if name == [] then None else FindKeyFrom(ls, LowerString(name), 0)
  }

  /** Names matching ignoring case are found at the same layer. */
  lemma {:induction false} FindSameForEqualNames(ls: seq<Layer>, a: string, b: string)
    requires EqualsNoCase(a, b)
    ensures FindLayer(ls, a) == FindLayer(ls, b)
  {
    assert |LowerString(a)| == |a| && |LowerString(b)| == |b|;
  }

  /** A matching layer with no match before it is the one found. */
  lemma {:induction false} FindAt(ls: seq<Layer>, name: string, i: nat)
    requires name != [] && i < |ls| && EqualsNoCase(ls[i].name, name)
    requires forall j :: 0 <= j < i ==> !EqualsNoCase(ls[j].name, name)
    ensures FindLayer(ls, name) == Some(i)
  {
  }

  /** The first position of an object in a layer's list. */
  function IndexOf(s: seq<ObjId>, o: ObjId): (r: Option<nat>)
    ensures r.Some? ==> r.value < |s| && s[r.value] == o && o !in s[..r.value]
    ensures r.None? <==> o !in s
  {
    if s == [] then None
    else if s[0] == o then Some(0)
    else
      match IndexOf(s[1..], o)
      case None => None
      case Some(k) =>
        assert s[1..][..k] == s[1..k + 1];
        Some(k + 1)
  }

  function FindObjectFrom(ls: seq<Layer>, o: ObjId, from: nat): (r: Option<(nat, nat)>)
    requires from <= |ls|
    ensures r.Some? ==> from <= r.value.0 < |ls| && IndexOf(ls[r.value.0].objects, o) == Some(r.value.1) &&
                        forall k :: from <= k < r.value.0 ==> o !in ls[k].objects
    ensures r.None? <==> forall k :: from <= k < |ls| ==> o !in ls[k].objects
    decreases |ls| - from
  {
    if from == |ls| then None
    else
      match IndexOf(ls[from].objects, o)
      case Some(j) => Some((from, j))
      case None => FindObjectFrom(ls, o, from + 1)
  }

  /** `findMapObjectAndList`: the first layer holding the object and its
      position there. */
  function FindObject(ls: seq<Layer>, o: ObjId): (r: Option<(nat, nat)>)
    ensures r.Some? ==> r.value.0 < |ls| && IndexOf(ls[r.value.0].objects, o) == Some(r.value.1) &&
                        forall k :: 0 <= k < r.value.0 ==> o !in ls[k].objects
    ensures r.None? <==> forall k :: 0 <= k < |ls| ==> o !in ls[k].objects
  {
    FindObjectFrom(ls, o, 0)
  }

  predicate Listed(ls: seq<Layer>, o: ObjId) {
    exists k :: 0 <= k < |ls| && o in ls[k].objects
  }

  /** Every object is listed at most once: in one layer, at one position. */
  predicate Unique(ls: seq<Layer>) {
    (forall k, a, b :: 0 <= k < |ls| && 0 <= a < b < |ls[k].objects| ==> ls[k].objects[a] != ls[k].objects[b]) &&
    (forall k, k2, o :: 0 <= k < |ls| && 0 <= k2 < |ls| && o in ls[k].objects && o in ls[k2].objects ==> k == k2)
  }

  /** Under `Unique`, the object is found in the one layer that holds it. */
  lemma {:induction false} FindObjectIn(ls: seq<Layer>, o: ObjId, k: nat, j: nat)
    requires Unique(ls) && k < |ls| && j < |ls[k].objects| && ls[k].objects[j] == o
    ensures FindObject(ls, o) == Some((k, j))
  {
    var r := FindObject(ls, o);
    assert r.Some?;
    var j2 := r.value.1;
    assert r.value.0 == k;
    assert ls[k].objects[j2] == o;
    if j2 < j {
    }
  }

  // ---------------------------------------------------------------------
  // The operations

  /** `resetLayers`: exactly the two default layers, both shown and empty,
      and the default name set back to its original. */
  function ResetLayers(st: LayerState): (r: LayerState)
    ensures r.defaultName == UnmutableDefaultLayerName
    ensures r.activeName == st.activeName && r.objectLayer == st.objectLayer
  {
    st.(layers := [Layer(UnmutableDefaultLayerName, true, [], []), Layer(TriggerLayerName, true, [], [])],
        defaultName := UnmutableDefaultLayerName)
  }

  /** Names of different lengths never match. */
  lemma {:induction false} LengthsDiffer(a: string, b: string)
    requires |a| != |b|
    ensures !EqualsNoCase(a, b)
  {
    assert |LowerString(a)| != |LowerString(b)|;
  }

  /** The two default layer names are distinct, ignoring case too. */
  lemma {:induction false} DefaultNamesDiffer()
    ensures !EqualsNoCase(UnmutableDefaultLayerName, TriggerLayerName)
  {
    assert UnmutableDefaultLayerName[8] == 'O' && TriggerLayerName[8] == 'T';
    CharsDiffer(UnmutableDefaultLayerName, TriggerLayerName, 8);
  }

  /** Names with different letters at one place (ignoring case) differ. */
  lemma {:induction false} CharsDiffer(a: string, b: string, i: nat)
    requires i < |a| && i < |b| && ToLower(a[i]) != ToLower(b[i])
    ensures !EqualsNoCase(a, b)
  {
    assert LowerString(a)[i] != LowerString(b)[i];
  }

  /** Two shown, empty layers with distinct non-empty names: each name finds
      its own layer and nothing is listed. */
  lemma {:induction false} TwoDistinctLayers(st: LayerState, a: string, b: string)
    requires a != [] && b != [] && !EqualsNoCase(a, b)
    requires st.layers == [Layer(a, true, [], []), Layer(b, true, [], [])]
    ensures FindLayer(st.layers, a) == Some(0) && FindLayer(st.layers, b) == Some(1)
    ensures !IsLayerHidden(st, a) && !IsLayerHidden(st, b)
    ensures Unique(st.layers) && forall o :: !Listed(st.layers, o)
  {
    FindAt(st.layers, a, 0);
    FindAt(st.layers, b, 1);
  }

  /** After a reset the default object layer is first and the trigger layer
      second, both found by their names, shown, and no object is listed. */
  lemma {:induction false} ResetFindsDefaults(st: LayerState)
    ensures var r := ResetLayers(st);
            |r.layers| == 2 && FindLayer(r.layers, r.defaultName) == Some(0) &&
            FindLayer(r.layers, TriggerLayerName) == Some(1) &&
            !IsLayerHidden(r, r.defaultName) && !IsLayerHidden(r, TriggerLayerName) &&
            Unique(r.layers) && forall o :: !Listed(r.layers, o)
  {
    DefaultNamesDiffer();
    TwoDistinctLayers(ResetLayers(st), UnmutableDefaultLayerName, TriggerLayerName);
  }

  /** `addLayerNamed`: a new shown, empty layer at the end, unless the name
      is empty or already used. */
  function AddLayerNamed(st: LayerState, name: string): (r: LayerState)
    ensures r.defaultName == st.defaultName && r.activeName == st.activeName && r.objectLayer == st.objectLayer
    ensures FindLayer(st.layers, name).None? && name != [] ==> r.layers == st.layers + [Layer(name, true, [], [])]
    ensures FindLayer(st.layers, name).Some? || name == [] ==> r == st
  {
    if FindLayer(st.layers, name).Some? then st
    else if name == [] then st
    else st.(layers := st.layers + [Layer(name, true, [], [])])
  }

  /** After adding, a non-empty name is found: at the new last layer when it
      was not there before, and it is shown then. */
  lemma {:induction false} AddLayerFinds(st: LayerState, name: string)
    requires name != []
    ensures var r := AddLayerNamed(st, name);
            FindLayer(r.layers, name).Some? &&
            (FindLayer(st.layers, name).None? ==>
              FindLayer(r.layers, name) == Some(|st.layers|) && !IsLayerHidden(r, name))
  {
    var r := AddLayerNamed(st, name);
    if FindLayer(st.layers, name).None? {
      assert r.layers[|st.layers|].name == name;
    }
  }

  /** Adding a layer twice is adding it once. */
  lemma {:induction false} AddLayerIdempotent(st: LayerState, name: string)
    ensures AddLayerNamed(AddLayerNamed(st, name), name) == AddLayerNamed(st, name)
  {
    if name != [] {
      AddLayerFinds(st, name);
    }
  }

  /** `isLayerHidden`: false for a layer that is not found, else whether the
      layer is hidden. */
  function IsLayerHidden(st: LayerState, name: string): (r: bool)
    ensures r ==> FindLayer(st.layers, name).Some?
    ensures r <==> exists k :: 0 <= k < |st.layers| && FindLayer(st.layers, name) == Some(k) && !st.layers[k].show
  {
    match FindLayer(st.layers, name)
    case None => false
    case Some(k) => !st.layers[k].show
  }

  /** `addMapObjectToLayer` on a layer already chosen: the object goes at the
      end of its list, and its `objectLayer` property becomes the layer's name,
      or empty for the default layer. */
  function AddObjectToLayer(st: LayerState, t: nat, o: ObjId): (r: LayerState)
    requires t < |st.layers|
    ensures |r.layers| == |st.layers| && r.defaultName == st.defaultName && r.activeName == st.activeName
    ensures r.layers[t].objects == st.layers[t].objects + [o]
    ensures r.layers[t].name == st.layers[t].name && r.layers[t].show == st.layers[t].show &&
            r.layers[t].triggers == st.layers[t].triggers
    ensures forall k :: 0 <= k < |st.layers| && k != t ==> r.layers[k] == st.layers[k]
    ensures o in r.objectLayer &&
            r.objectLayer[o] == (if EqualsNoCase(st.layers[t].name, st.defaultName) then "" else st.layers[t].name)
  {
    var l := st.layers[t];
    var tag := if EqualsNoCase(l.name, st.defaultName) then "" else l.name;
    st.(layers := st.layers[t := l.(objects := l.objects + [o])], objectLayer := st.objectLayer[o := tag])
  }

  /** The layer `addMapObjectToLayersList` settles on, after adding the
      requested layer if it was missing: the requested one, else the active
      one, else the default one. */
  function Target(st: LayerState, name: string): (r: (LayerState, Option<nat>))
    ensures r.0 == AddLayerNamed(st, name)
    ensures r.1.Some? ==> r.1.value < |r.0.layers|
  {
    var st1 := AddLayerNamed(st, name);
    match FindLayer(st1.layers, name)
    case Some(t) => (st1, Some(t))
    case None =>
      match FindLayer(st1.layers, st1.activeName)
      case Some(t) => (st1, Some(t))
      case None => (st1, FindLayer(st1.layers, st1.defaultName))
  }

  /** `addMapObjectToLayersList`: a missing object, or one already listed, is
      refused; otherwise it goes into the layer `Target` picks, if any. */
  function AddMapObjectToLayersList(st: LayerState, obj: Option<ObjId>, name: string): (r: LayerState)
    ensures obj.None? || Listed(st.layers, obj.value) ==> r == st
    ensures |r.layers| >= |st.layers| && r.defaultName == st.defaultName && r.activeName == st.activeName
  {
    if obj.None? || FindObject(st.layers, obj.value).Some? then st
    else
      var (st1, t) := Target(st, name);
      if t.None? then st1 else AddObjectToLayer(st1, t.value, obj.value)
  }

  /** An object given a non-empty layer name ends up last in the layer of
      that name, which is created if needed. */
  lemma {:induction false} AddObjectPlacesIt(st: LayerState, o: ObjId, name: string)
    requires !Listed(st.layers, o) && name != []
    ensures var r := AddMapObjectToLayersList(st, Some(o), name);
            var t := FindLayer(r.layers, name);
            t.Some? && r.layers[t.value].objects == AddLayerNamed(st, name).layers[t.value].objects + [o]
  {
    AddLayerFinds(st, name);
  }

  /** With no layer name the object goes to the active layer when there is
      one, else the default layer; with neither, nothing changes. */
  lemma {:induction false} AddObjectFallsBack(st: LayerState, o: ObjId)
    requires !Listed(st.layers, o)
    ensures var r := AddMapObjectToLayersList(st, Some(o), "");
            var a := FindLayer(st.layers, st.activeName);
            var d := FindLayer(st.layers, st.defaultName);
            (a.Some? ==> r.layers[a.value].objects == st.layers[a.value].objects + [o]) &&
            (a.None? && d.Some? ==> r.layers[d.value].objects == st.layers[d.value].objects + [o]) &&
            (a.None? && d.None? ==> r == st)
  {
  }

  /** A new, empty layer keeps every object listed once, and lists nothing
      new. */
  lemma {:induction false} AppendLayerKeepsUnique(ls: seq<Layer>, l: Layer)
    requires Unique(ls) && l.objects == []
    ensures Unique(ls + [l])
    ensures forall o :: Listed(ls + [l], o) ==> Listed(ls, o)
  {
    var ls1 := ls + [l];
    forall k | 0 <= k < |ls| ensures ls1[k] == ls[k] {}
    forall o | Listed(ls1, o) ensures Listed(ls, o) {
      var k :| 0 <= k < |ls1| && o in ls1[k].objects;
      assert k < |ls|;
    }
  }

  /** Appending an unlisted object to one layer keeps every object listed
      once. */
  lemma {:induction false} AppendObjectKeepsUnique(ls: seq<Layer>, t: nat, o: ObjId)
    requires Unique(ls) && t < |ls| && !Listed(ls, o)
    ensures Unique(ls[t := ls[t].(objects := ls[t].objects + [o])])
  {
    var r := ls[t := ls[t].(objects := ls[t].objects + [o])];
    forall k, a, b | 0 <= k < |r| && 0 <= a < b < |r[k].objects|
      ensures r[k].objects[a] != r[k].objects[b]
    {
      if k == t && b == |ls[k].objects| {
        assert ls[k].objects[a] in ls[k].objects;
      } else {
        assert r[k].objects[a] == ls[k].objects[a];
      }
    }
    forall k, k2, x | 0 <= k < |r| && 0 <= k2 < |r| && x in r[k].objects && x in r[k2].objects
      ensures k == k2
    {
      if x != o {
        assert x in ls[k].objects;
        assert x in ls[k2].objects;
      }
    }
  }

  /** Adding keeps every object listed at most once. */
  lemma {:induction false} AddKeepsUnique(st: LayerState, obj: Option<ObjId>, name: string)
    requires Unique(st.layers)
    ensures Unique(AddMapObjectToLayersList(st, obj, name).layers)
  {
    if obj.Some? && FindObject(st.layers, obj.value).None? {
      var o := obj.value;
      var (st1, t) := Target(st, name);
      if st1.layers != st.layers {
        AppendLayerKeepsUnique(st.layers, Layer(name, true, [], []));
      }
      if t.Some? {
        AppendObjectKeepsUnique(st1.layers, t.value, o);
      }
    }
  }

  /** `removeMapObjectFromLayersList`: the object is erased from the first
      layer holding it, whose name is returned; a missing or unlisted object
      changes nothing and gives the empty name. */
  function RemoveMapObjectFromLayersList(st: LayerState, obj: Option<ObjId>): (r: (LayerState, string))
    ensures |r.0.layers| == |st.layers| && r.0.defaultName == st.defaultName && r.0.activeName == st.activeName
    ensures forall k :: 0 <= k < |st.layers| ==>
              r.0.layers[k].name == st.layers[k].name && r.0.layers[k].show == st.layers[k].show &&
              r.0.layers[k].triggers == st.layers[k].triggers
    ensures obj.None? || !Listed(st.layers, obj.value) ==> r == (st, "")
  {
    if obj.None? then (st, "")
    else
      match FindObject(st.layers, obj.value)
      case None => (st, "")
      case Some((k, j)) =>
        var l := st.layers[k];
        (st.(layers := st.layers[k := l.(objects := l.objects[..j] + l.objects[j + 1..])]), l.name)
  }

  /** Removing a listed object (of a list where it is listed once) leaves it
      in no layer and every other object where it was. */
  lemma {:induction false} RemoveUnlists(st: LayerState, o: ObjId)
    requires Unique(st.layers) && Listed(st.layers, o)
    ensures var r := RemoveMapObjectFromLayersList(st, Some(o));
            var (k, j) := FindObject(st.layers, o).value;
            !Listed(r.0.layers, o) && r.1 == st.layers[k].name &&
            r.0.layers[k].objects == st.layers[k].objects[..j] + st.layers[k].objects[j + 1..] &&
            forall k2 :: 0 <= k2 < |st.layers| && k2 != k ==> r.0.layers[k2] == st.layers[k2]
  {
    var (k, j) := FindObject(st.layers, o).value;
    var s := st.layers[k].objects;
    var r := RemoveMapObjectFromLayersList(st, Some(o));
    forall k2 | 0 <= k2 < |st.layers| ensures o !in r.0.layers[k2].objects {
      if k2 == k {
        forall i | 0 <= i < |s| - 1 ensures r.0.layers[k].objects[i] != o {
          if i < j {
            assert r.0.layers[k].objects[i] == s[i];
          } else {
            assert r.0.layers[k].objects[i] == s[i + 1];
          }
        }
      }
    }
  }

  /** Removing undoes adding: an object added to an existing layer and then
      removed leaves the layers as they were, and the removal reports the
      layer it was in. */
  lemma {:induction false} RemoveUndoesAdd(st: LayerState, o: ObjId, name: string)
    requires Unique(st.layers) && !Listed(st.layers, o) && FindLayer(st.layers, name).Some?
    ensures var r := RemoveMapObjectFromLayersList(AddMapObjectToLayersList(st, Some(o), name), Some(o));
            r.0.layers == st.layers && EqualsNoCase(r.1, name)
  {
    var t := FindLayer(st.layers, name).value;
    var a := AddMapObjectToLayersList(st, Some(o), name);
    var s := st.layers[t].objects;
    assert a == AddObjectToLayer(st, t, o);
    AddKeepsUnique(st, Some(o), name);
    FindObjectIn(a.layers, o, t, |s|);
    assert (s + [o])[..|s|] + (s + [o])[|s| + 1..] == s;
  }

  /** `changeMapObjectLayer`: remove, then add under the new name. */
  function ChangeMapObjectLayer(st: LayerState, obj: Option<ObjId>, name: string): (r: LayerState)
    ensures |r.layers| >= |st.layers| && r.defaultName == st.defaultName && r.activeName == st.activeName
  {
    if obj.None? then st
    else AddMapObjectToLayersList(RemoveMapObjectFromLayersList(st, obj).0, obj, name)
  }

  /** Layers with the same names, in the same order, find the same layer. */
  lemma {:induction false} SameNamesSameFind(ls1: seq<Layer>, ls2: seq<Layer>, name: string)
    requires |ls1| == |ls2| && forall j :: 0 <= j < |ls1| ==> ls1[j].name == ls2[j].name
    ensures FindLayer(ls1, name) == FindLayer(ls2, name)
  {
  }

  /** Replacing two layers by layers of the same names finds the same
      layer. */
  lemma {:induction false} FindAfterUpdates(ls: seq<Layer>, i: nat, j: nat, a: Layer, b: Layer, name: string)
    requires i < |ls| && j < |ls| && a.name == ls[i].name && b.name == ls[j].name
    ensures FindLayer(ls[i := a][j := b], name) == FindLayer(ls, name)
  {
    var ls1 := ls[i := a][j := b];
    forall n | 0 <= n < |ls1| ensures ls1[n].name == ls[n].name {
    }
    SameNamesSameFind(ls1, ls, name);
  }

  /** The layers once a layer called `name` is sure to exist. */
  function WithLayer(st: LayerState, name: string): seq<Layer> {
    AddLayerNamed(st, name).layers
  }

  /** Erasing the first object of a layer keeps every object listed once. */
  lemma {:induction false} DropFirstKeepsUnique(ls: seq<Layer>, k: nat)
    requires Unique(ls) && k < |ls| && ls[k].objects != []
    ensures Unique(ls[k := ls[k].(objects := ls[k].objects[1..])])
  {
    var s := ls[k].objects;
    var ls1 := ls[k := ls[k].(objects := s[1..])];
    forall k1, a, b | 0 <= k1 < |ls1| && 0 <= a < b < |ls1[k1].objects|
      ensures ls1[k1].objects[a] != ls1[k1].objects[b]
    {
      if k1 == k {
        assert ls1[k].objects[a] == s[a + 1] && ls1[k].objects[b] == s[b + 1];
      }
    }
    forall k1, k2, x | 0 <= k1 < |ls1| && 0 <= k2 < |ls1| && x in ls1[k1].objects && x in ls1[k2].objects
      ensures k1 == k2
    {
      assert x in ls[k1].objects && x in ls[k2].objects;
    }
  }

  /** Moving the first object of layer `k` to the layer named `name` (which
      `k` does not carry): the object leaves the front of `k` and lands last
      in the layer of that name, created first if needed; nothing else
      changes and objects stay listed once. */
  lemma {:induction false} ChangeMovesObject(st: LayerState, k: nat, name: string)
    requires Unique(st.layers) && k < |st.layers| && st.layers[k].objects != []
    requires name != [] && !EqualsNoCase(st.layers[k].name, name)
    ensures var o := st.layers[k].objects[0];
            var r := ChangeMapObjectLayer(st, Some(o), name);
            var ls := WithLayer(st, name);
            var f := FindLayer(ls, name);
            f.Some? && f.value != k && k < |ls| &&
            r.layers == ls[k := ls[k].(objects := ls[k].objects[1..])]
                          [f.value := ls[f.value].(objects := ls[f.value].objects + [o])] &&
            Unique(r.layers)
  {
    var o := st.layers[k].objects[0];
    var lk := st.layers[k].(objects := st.layers[k].objects[1..]);
    RemoveFirst(st, k);
    var st1 := RemoveMapObjectFromLayersList(st, Some(o)).0;
    WithLayerUpdate(st, st1, k, lk, name);
    AddLayerFinds(st, name);
    AddToNamedLayer(st1, o, name);
    AddKeepsUnique(st1, Some(o), name);
    assert ChangeMapObjectLayer(st, Some(o), name) == AddMapObjectToLayersList(st1, Some(o), name);
  }

  /** Replacing a layer by one of the same name before adding a named layer
      is replacing it after, and the name is found at the same place. */
  lemma {:induction false} WithLayerUpdate(st: LayerState, st1: LayerState, k: nat, l: Layer, name: string)
    requires k < |st.layers| && l.name == st.layers[k].name && st1.layers == st.layers[k := l]
    ensures k < |WithLayer(st, name)| && WithLayer(st, name)[k] == st.layers[k]
    ensures WithLayer(st1, name) == WithLayer(st, name)[k := l]
    ensures FindLayer(WithLayer(st1, name), name) == FindLayer(WithLayer(st, name), name)
  {
    SameNamesSameFind(st1.layers, st.layers, name);
    var ls := WithLayer(st, name);
    var ls1 := WithLayer(st1, name);
    if FindLayer(st.layers, name).None? && name != [] {
      assert ls1 == ls[k := l];
    }
    SameNamesSameFind(ls1, ls, name);
  }

  /** Removing the first object of layer `k` takes it off the front of `k`
      and out of the list. */
  lemma {:induction false} RemoveFirst(st: LayerState, k: nat)
    requires Unique(st.layers) && k < |st.layers| && st.layers[k].objects != []
    ensures var r := RemoveMapObjectFromLayersList(st, Some(st.layers[k].objects[0])).0;
            r.layers == st.layers[k := st.layers[k].(objects := st.layers[k].objects[1..])] &&
            Unique(r.layers) && !Listed(r.layers, st.layers[k].objects[0])
  {
    var o := st.layers[k].objects[0];
    FindObjectIn(st.layers, o, k, 0);
    RemoveUnlists(st, o);
    assert st.layers[k].objects[..0] + st.layers[k].objects[1..] == st.layers[k].objects[1..];
    DropFirstKeepsUnique(st.layers, k);
  }

  /** An unlisted object given a non-empty layer name goes last into the
      layer of that name, created first if needed. */
  lemma {:induction false} AddToNamedLayer(st: LayerState, o: ObjId, name: string)
    requires !Listed(st.layers, o) && name != []
    ensures var ls := WithLayer(st, name);
            var f := FindLayer(ls, name);
            f.Some? &&
            AddMapObjectToLayersList(st, Some(o), name).layers ==
              ls[f.value := ls[f.value].(objects := ls[f.value].objects + [o])]
  {
    AddLayerFinds(st, name);
  }

  /** The move loop of `removeLayerNamed`: while layer `k` holds objects,
      its first one is moved to the default layer. `None` when a pass leaves
      the layer as full as before, and every later pass does the same, so
      the loop never ends. That happens when the object falls back into the
      same layer (the active one, for an empty default name), or when the
      object is also listed in an earlier layer, which the move takes it out
      of instead (a state the editor never produces). */
  function MoveOut(st: LayerState, k: nat): (r: Option<LayerState>)
    requires k < |st.layers|
    ensures r.Some? ==> k < |r.value.layers| && r.value.layers[k].objects == [] &&
                        r.value.defaultName == st.defaultName && r.value.activeName == st.activeName
    decreases |st.layers[k].objects|
  {
    if st.layers[k].objects == [] then Some(st)
    else
      var st1 := ChangeMapObjectLayer(st, Some(st.layers[k].objects[0]), st.defaultName);
      if |st1.layers[k].objects| >= |st.layers[k].objects| then None
      else MoveOut(st1, k)
  }

  /** A pass that shortens layer `k` lets the loop go on. */
  lemma {:induction false} MoveOutUnfolds(st: LayerState, k: nat, st1: LayerState)
    requires k < |st.layers| && st.layers[k].objects != []
    requires st1 == ChangeMapObjectLayer(st, Some(st.layers[k].objects[0]), st.defaultName)
    requires k < |st1.layers| && |st1.layers[k].objects| < |st.layers[k].objects|
    ensures MoveOut(st, k) == MoveOut(st1, k)
  {
  }

  /** The conditions under which the move loop of layer `k` ends: the
      default layer exists at `f`, is not `k`, and objects are listed once. */
  predicate MoveReady(st: LayerState, k: nat, f: nat) {
    Unique(st.layers) && k < |st.layers| && f < |st.layers| && f != k &&
    FindLayer(st.layers, st.defaultName) == Some(f) && !EqualsNoCase(st.layers[k].name, st.defaultName)
  }

  /** One pass with the default layer in place: the first object of `k`
      moves to the end of `f`, and the loop goes on from there. */
  lemma {:induction false} MoveStepReady(st: LayerState, k: nat, f: nat) returns (st1: LayerState)
    requires MoveReady(st, k, f) && st.layers[k].objects != []
    ensures MoveReady(st1, k, f) && st1.defaultName == st.defaultName
    ensures st1.layers == st.layers[k := st.layers[k].(objects := st.layers[k].objects[1..])]
                                   [f := st.layers[f].(objects := st.layers[f].objects + [st.layers[k].objects[0]])]
    ensures MoveOut(st, k) == MoveOut(st1, k)
  {
    var name := st.defaultName;
    var ls := st.layers;
    assert AddLayerNamed(st, name) == st;
    ChangeMovesObject(st, k, name);
    st1 := ChangeMapObjectLayer(st, Some(ls[k].objects[0]), name);
    FindAfterUpdates(ls, k, f, ls[k].(objects := ls[k].objects[1..]),
                     ls[f].(objects := ls[f].objects + [ls[k].objects[0]]), name);
    MoveOutUnfolds(st, k, st1);
  }

  /** With the default layer in place, the loop empties layer `k` into it. */
  lemma {:induction false} MoveOutReady(st: LayerState, k: nat, f: nat)
    requires MoveReady(st, k, f)
    ensures var r := MoveOut(st, k);
            r.Some? && MoveReady(r.value, k, f) &&
            r.value.layers == st.layers[k := st.layers[k].(objects := [])]
                                      [f := st.layers[f].(objects := st.layers[f].objects + st.layers[k].objects)]
    decreases |st.layers[k].objects|
  {
    var ls := st.layers;
    if ls[k].objects == [] {
      assert ls[k] == ls[k].(objects := []);
      assert ls[f].objects + [] == ls[f].objects;
    } else {
      var o := ls[k].objects[0];
      var st1 := MoveStepReady(st, k, f);
      MoveOutReady(st1, k, f);
      var lk := ls[k].(objects := ls[k].objects[1..]);
      var lf := ls[f].(objects := ls[f].objects + [o]);
      var x := ls[k].(objects := []);
      var y := ls[f].(objects := ls[f].objects + ls[k].objects);
      assert lk.(objects := []) == x;
      AppendFirst(ls[f].objects, ls[k].objects);
      UpdateTwice(ls, k, f, lk, lf, x, y);
    }
  }

  /** With a non-empty default name that layer `k` does not carry, the
      loop ends: the first pass makes sure the default layer exists, and
      layer `k` is left empty with its name and triggers while its objects
      follow, in order, what the default layer held. */
  lemma {:induction false} MoveOutMovesAll(st: LayerState, k: nat) returns (f: nat)
    requires Unique(st.layers) && k < |st.layers| && st.defaultName != [] && st.layers[k].objects != []
    requires !EqualsNoCase(st.layers[k].name, st.defaultName)
    ensures var ls := WithLayer(st, st.defaultName);
            var r := MoveOut(st, k);
            FindLayer(ls, st.defaultName) == Some(f) && f != k && k < |ls| && ls[k] == st.layers[k] &&
            r.Some? && MoveReady(r.value, k, f) &&
            r.value.layers == ls[k := ls[k].(objects := [])][f := ls[f].(objects := ls[f].objects + ls[k].objects)]
  {
    var name := st.defaultName;
    var ls := WithLayer(st, name);
    var o := st.layers[k].objects[0];
    AddLayerFinds(st, name);
    ChangeMovesObject(st, k, name);
    f := FindLayer(ls, name).value;
    var st1 := ChangeMapObjectLayer(st, Some(o), name);
    var lk := ls[k].(objects := ls[k].objects[1..]);
    var lf := ls[f].(objects := ls[f].objects + [o]);
    FindAfterUpdates(ls, k, f, lk, lf, name);
    MoveOutUnfolds(st, k, st1);
    MoveOutReady(st1, k, f);
    var x := ls[k].(objects := []);
    var y := ls[f].(objects := ls[f].objects + ls[k].objects);
    assert lk.(objects := []) == x;
    AppendFirst(ls[f].objects, ls[k].objects);
    UpdateTwice(ls, k, f, lk, lf, x, y);
  }

  lemma {:induction false} AppendFirst<T>(a: seq<T>, s: seq<T>)
    requires s != []
    ensures (a + [s[0]]) + s[1..] == a + s
  {
    assert s == [s[0]] + s[1..];
  }

  lemma {:induction false} UpdateTwice<T>(s: seq<T>, i: nat, j: nat, a: T, b: T, x: T, y: T)
    requires i < |s| && j < |s| && i != j
    ensures s[i := a][j := b][i := x][j := y] == s[i := x][j := y]
  {
  }

  /** `mLayers.erase`: the list without layer `k`. */
  function EraseLayer(ls: seq<Layer>, k: nat): (r: seq<Layer>)
    requires k < |ls|
    ensures |r| == |ls| - 1
    ensures forall i :: 0 <= i < |r| ==> r[i] == ls[if i < k then i else i + 1]
  {
    ls[..k] + ls[k + 1..]
  }

  lemma {:induction false} EraseKeepsUnique(ls: seq<Layer>, k: nat)
    requires Unique(ls) && k < |ls|
    ensures Unique(EraseLayer(ls, k))
  {
    var r := EraseLayer(ls, k);
    forall k1, a, b | 0 <= k1 < |r| && 0 <= a < b < |r[k1].objects|
      ensures r[k1].objects[a] != r[k1].objects[b]
    {
      assert r[k1] == ls[if k1 < k then k1 else k1 + 1];
    }
    forall k1, k2, x | 0 <= k1 < |r| && 0 <= k2 < |r| && x in r[k1].objects && x in r[k2].objects
      ensures k1 == k2
    {
      assert r[k1] == ls[if k1 < k then k1 else k1 + 1];
      assert r[k2] == ls[if k2 < k then k2 else k2 + 1];
    }
  }

  /** Erasing a layer other than the one a name finds keeps finding it, one
      place earlier when it came after the erased one. */
  lemma {:induction false} EraseKeepsFind(ls: seq<Layer>, k: nat, name: string, f: nat)
    requires k < |ls| && FindLayer(ls, name) == Some(f) && f != k
    ensures FindLayer(EraseLayer(ls, k), name) == Some(if f < k then f else f - 1)
  {
    var r := EraseLayer(ls, k);
    var g := if f < k then f else f - 1;
    forall j | 0 <= j < g ensures !EqualsNoCase(r[j].name, name) {
      assert r[j] == ls[if j < k then j else j + 1];
    }
    FindAt(r, name, g);
  }

  /** `removeLayerNamed`: the two default layers (by their current names)
      and unknown names are refused; otherwise the layer's objects are moved
      to the default layer and the layer is erased with its triggers.
      `None` when the move loop never ends. The default layer, the trigger
      layer and a name not in the list are refused: the state stays as it
      was. */
  function RemoveLayerNamed(st: LayerState, name: string): (r: Option<LayerState>)
    ensures (EqualsNoCase(name, st.defaultName) || EqualsNoCase(name, TriggerLayerName) ||
             FindLayer(st.layers, name).None?) ==> r == Some(st)
  {
    if EqualsNoCase(name, st.defaultName) then Some(st)
    else if EqualsNoCase(name, TriggerLayerName) then Some(st)
    else
      match FindLayer(st.layers, name)
      case None => Some(st)
      case Some(k) => RemoveLayerAt(st, k)
  }

  /** The removal proper, once layer `k` is known: its objects are moved to
      the default layer and the layer is erased. */
  function RemoveLayerAt(st: LayerState, k: nat): (r: Option<LayerState>)
    requires k < |st.layers|
    ensures r.Some? <==> MoveOut(st, k).Some?
    ensures r.Some? ==> |r.value.layers| == |MoveOut(st, k).value.layers| - 1
  {
    match MoveOut(st, k)
    case None => None
    case Some(st2) => Some(st2.(layers := EraseLayer(st2.layers, k)))
  }

  /** Removing a layer that is not one of the defaults leaves fewer layers
      than the list with the default layer in it. */
  lemma {:induction false} RemoveShrinks(st: LayerState, name: string)
    requires FindLayer(st.layers, name).Some? && RemoveLayerNamed(st, name).Some?
    requires !EqualsNoCase(name, st.defaultName) && !EqualsNoCase(name, TriggerLayerName)
    ensures |RemoveLayerNamed(st, name).value.layers| < |WithLayer(st, st.defaultName)|
  {
    MoveOutLength(st, FindLayer(st.layers, name).value);
  }

  /** The move loop adds at most the default layer. */
  lemma {:induction false} MoveOutLength(st: LayerState, k: nat)
    requires k < |st.layers| && MoveOut(st, k).Some?
    ensures |MoveOut(st, k).value.layers| <= |WithLayer(st, st.defaultName)|
    decreases |st.layers[k].objects|
  {
    if st.layers[k].objects != [] {
      var o := st.layers[k].objects[0];
      var st1 := ChangeMapObjectLayer(st, Some(o), st.defaultName);
      MoveOutLength(st1, k);
      ChangeLength(st, o, st.defaultName);
    }
  }

  /** A change adds at most the layer it names, and once that layer exists
      it adds nothing. */
  lemma {:induction false} ChangeLength(st: LayerState, o: ObjId, name: string)
    ensures var st1 := ChangeMapObjectLayer(st, Some(o), name);
            |st1.layers| <= |WithLayer(st, name)| &&
            |WithLayer(st1, name)| <= |WithLayer(st, name)|
  {
    var st0 := RemoveMapObjectFromLayersList(st, Some(o)).0;
    var st1 := AddMapObjectToLayersList(st0, Some(o), name);
    assert ChangeMapObjectLayer(st, Some(o), name) == st1;
    WithLayerSameNames(st0, st, name);
    AddKeepsNames(st0, Some(o), name);
    if |st1.layers| > |st0.layers| {
      assert EqualsNoCase(st1.layers[|st0.layers|].name, name);
    } else {
      WithLayerSameNames(st1, st0, name);
    }
  }

  /** Lists with the same names gain the same number of layers from adding a
      named one. */
  lemma {:induction false} WithLayerSameNames(a: LayerState, b: LayerState, name: string)
    requires |a.layers| == |b.layers| && forall j :: 0 <= j < |a.layers| ==> a.layers[j].name == b.layers[j].name
    ensures |WithLayer(a, name)| == |WithLayer(b, name)|
  {
    SameNamesSameFind(a.layers, b.layers, name);
  }

  /** Adding an object keeps the names of the layers and adds at most the
      layer it names. */
  lemma {:induction false} AddKeepsNames(st: LayerState, obj: Option<ObjId>, name: string)
    ensures var r := AddMapObjectToLayersList(st, obj, name).layers;
            |r| <= |WithLayer(st, name)| &&
            (forall j :: 0 <= j < |st.layers| ==> r[j].name == st.layers[j].name) &&
            (|r| > |st.layers| ==> r[|st.layers|].name == name)
  {
  }

  /** Erasing a layer keeps every object held elsewhere listed. */
  lemma {:induction false} EraseKeepsListed(ls: seq<Layer>, k: nat, o: ObjId)
    requires k < |ls| && Listed(ls, o) && o !in ls[k].objects
    ensures Listed(EraseLayer(ls, k), o)
  {
    var i :| 0 <= i < |ls| && o in ls[i].objects;
    assert EraseLayer(ls, k)[if i < k then i else i - 1] == ls[i];
  }

  /** Emptying layer `k` into layer `f` keeps every object listed. */
  lemma {:induction false} MoveKeepsListed(ls: seq<Layer>, k: nat, f: nat, o: ObjId)
    requires k < |ls| && f < |ls| && k != f && Listed(ls, o)
    ensures var r := ls[k := ls[k].(objects := [])][f := ls[f].(objects := ls[f].objects + ls[k].objects)];
            Listed(r, o) && o !in r[k].objects
  {
    var r := ls[k := ls[k].(objects := [])][f := ls[f].(objects := ls[f].objects + ls[k].objects)];
    var i :| 0 <= i < |ls| && o in ls[i].objects;
    if i == k || i == f {
      assert o in r[f].objects;
    } else {
      assert r[i] == ls[i];
    }
  }

  /** Making sure a layer exists keeps every object listed. */
  lemma {:induction false} WithLayerKeepsListed(st: LayerState, name: string, o: ObjId)
    requires Listed(st.layers, o)
    ensures Listed(WithLayer(st, name), o)
  {
    var i :| 0 <= i < |st.layers| && o in st.layers[i].objects;
    assert WithLayer(st, name)[i] == st.layers[i];
  }

  /** Removing a layer when the default name is set: the layer goes, every
      object it held ends up in the default layer, and no object is lost or
      listed twice. */
  lemma {:induction false} RemoveLayerMovesObjects(st: LayerState, name: string)
    requires Unique(st.layers) && st.defaultName != []
    requires !EqualsNoCase(name, st.defaultName) && !EqualsNoCase(name, TriggerLayerName)
    requires FindLayer(st.layers, name).Some?
    ensures var k := FindLayer(st.layers, name).value;
            var r := RemoveLayerNamed(st, name);
            r.Some? && Unique(r.value.layers) &&
            (forall o :: Listed(st.layers, o) ==> Listed(r.value.layers, o)) &&
            (st.layers[k].objects != [] ==>
               var d := FindLayer(r.value.layers, st.defaultName);
               d.Some? && forall o :: o in st.layers[k].objects ==> o in r.value.layers[d.value].objects)
  {
    var k := FindLayer(st.layers, name).value;
    var dn := st.defaultName;
    assert !EqualsNoCase(st.layers[k].name, dn);
    if st.layers[k].objects == [] {
      RemoveEmptyLayer(st, k);
    } else {
      RemoveFullLayer(st, k);
    }
  }

  lemma {:induction false} RemoveEmptyLayer(st: LayerState, k: nat)
    requires Unique(st.layers) && k < |st.layers| && st.layers[k].objects == []
    ensures MoveOut(st, k) == Some(st)
    ensures Unique(EraseLayer(st.layers, k))
    ensures forall o :: Listed(st.layers, o) ==> Listed(EraseLayer(st.layers, k), o)
  {
    EraseKeepsUnique(st.layers, k);
    forall o | Listed(st.layers, o) ensures Listed(EraseLayer(st.layers, k), o) {
      EraseKeepsListed(st.layers, k, o);
    }
  }

  lemma {:induction false} RemoveFullLayer(st: LayerState, k: nat)
    requires Unique(st.layers) && k < |st.layers| && st.defaultName != [] && st.layers[k].objects != []
    requires !EqualsNoCase(st.layers[k].name, st.defaultName)
    ensures var m := MoveOut(st, k);
            m.Some? && k < |m.value.layers| &&
            var ls := EraseLayer(m.value.layers, k);
            var d := FindLayer(ls, st.defaultName);
            Unique(ls) && (forall o :: Listed(st.layers, o) ==> Listed(ls, o)) &&
            d.Some? && forall o :: o in st.layers[k].objects ==> o in ls[d.value].objects
  {
    var f := MoveOutMovesAll(st, k);
    var m := MoveOut(st, k).value;
    var w := WithLayer(st, st.defaultName);
    EraseKeepsUnique(m.layers, k);
    EraseKeepsFind(m.layers, k, st.defaultName, f);
    var ls := EraseLayer(m.layers, k);
    var g := if f < k then f else f - 1;
    assert ls[g] == m.layers[f];
    assert m.layers[f].objects == w[f].objects + st.layers[k].objects;
    forall o | Listed(st.layers, o) ensures Listed(ls, o) {
      WithLayerKeepsListed(st, st.defaultName, o);
      MoveKeepsListed(w, k, f, o);
      EraseKeepsListed(m.layers, k, o);
    }
  }

  /** `changeLayerName` as written: the layer is renamed, and the default
      name is overwritten when the old name is NOT the default one (a
      non-zero `compareNoCase`). */
  function ChangeLayerNameAsWritten(st: LayerState, oldName: string, newName: string): (r: LayerState)
    ensures FindLayer(st.layers, oldName).None? ==> r == st
    ensures FindLayer(st.layers, oldName).Some? ==>
              r.defaultName == (if !EqualsNoCase(oldName, st.defaultName) then newName else st.defaultName)
    ensures FindLayer(st.layers, oldName).Some? ==>
              var k := FindLayer(st.layers, oldName).value;
              r.layers == st.layers[k := st.layers[k].(name := newName)]
  {
    match FindLayer(st.layers, oldName)
    case None => st
    case Some(k) =>
      var st1 := st.(layers := st.layers[k := st.layers[k].(name := newName)]);
      if !EqualsNoCase(oldName, st.defaultName) then st1.(defaultName := newName) else st1
  }

  /** Renaming a layer, with the default name following the default layer
      (the comparison `OnEndEditLabel` makes). */
  function ChangeLayerName(st: LayerState, oldName: string, newName: string): (r: LayerState)
    ensures FindLayer(st.layers, oldName).None? ==> r == st
    ensures |r.layers| == |st.layers| && r.activeName == st.activeName && r.objectLayer == st.objectLayer
    ensures FindLayer(st.layers, oldName).Some? ==>
              var k := FindLayer(st.layers, oldName).value;
              r.layers == st.layers[k := st.layers[k].(name := newName)]
  {
    match FindLayer(st.layers, oldName)
    case None => st
    case Some(k) =>
      var st1 := st.(layers := st.layers[k := st.layers[k].(name := newName)]);
      if EqualsNoCase(oldName, st.defaultName) then st1.(defaultName := newName) else st1
  }

  /** The default name finds a layer. */
  predicate DefaultFound(st: LayerState) {
    FindLayer(st.layers, st.defaultName).Some?
  }

  /** Renaming keeps the default name pointing at a layer: renaming the
      default layer moves the name with it, renaming another layer leaves it
      alone (unless the new name shadows it, in which case it names that
      layer). */
  lemma {:induction false} RenameKeepsDefault(st: LayerState, oldName: string, newName: string)
    requires DefaultFound(st) && newName != []
    ensures DefaultFound(ChangeLayerName(st, oldName, newName))
  {
    var r := ChangeLayerName(st, oldName, newName);
    match FindLayer(st.layers, oldName)
    case None =>
    case Some(k) =>
      if EqualsNoCase(oldName, st.defaultName) {
        assert EqualsNoCase(r.layers[k].name, newName);
      } else {
        var d := FindLayer(st.layers, st.defaultName).value;
        assert r.layers[d] == st.layers[d];
      }
  }

  /** As written, renaming the default layer leaves the default name behind:
      when no other layer carries that name and the new name differs from
      it, the default name finds no layer any more. The corrected rename
      keeps it found. */
  lemma {:induction false} AsWrittenRenameDropsDefault(st: LayerState, newName: string)
    requires DefaultFound(st) && newName != [] && !EqualsNoCase(newName, st.defaultName)
    requires forall j :: 0 <= j < |st.layers| && j != FindLayer(st.layers, st.defaultName).value ==>
               !EqualsNoCase(st.layers[j].name, st.defaultName)
    ensures !DefaultFound(ChangeLayerNameAsWritten(st, st.defaultName, newName))
    ensures DefaultFound(ChangeLayerName(st, st.defaultName, newName))
  {
    var k := FindLayer(st.layers, st.defaultName).value;
    var w := ChangeLayerNameAsWritten(st, st.defaultName, newName);
    assert w.defaultName == st.defaultName;
    forall j | 0 <= j < |w.layers| ensures !EqualsNoCase(w.layers[j].name, w.defaultName) {
      if j == k {
        assert w.layers[k].name == newName;
      } else {
        assert w.layers[j] == st.layers[j];
      }
    }
    RenameKeepsDefault(st, st.defaultName, newName);
  }

  /** As written, renaming any other layer makes its new name the default
      name, so that layer can no longer be removed; the corrected rename
      leaves the default name alone. */
  lemma {:induction false} AsWrittenRenameTakesDefault(st: LayerState, oldName: string, newName: string)
    requires FindLayer(st.layers, oldName).Some? && !EqualsNoCase(oldName, st.defaultName)
    ensures var w := ChangeLayerNameAsWritten(st, oldName, newName);
            w.defaultName == newName && RemoveLayerNamed(w, newName) == Some(w)
    ensures ChangeLayerName(st, oldName, newName).defaultName == st.defaultName
  {
  }

  /** On a freshly reset list, renaming "Default Object Layer" to "X" as
      written loses the default layer; the corrected rename does not. */
  lemma {:induction false} AsWrittenRenameLosesDefault(st: LayerState)
    ensures var s0 := ResetLayers(st);
            !DefaultFound(ChangeLayerNameAsWritten(s0, UnmutableDefaultLayerName, "X")) &&
            DefaultFound(ChangeLayerName(s0, UnmutableDefaultLayerName, "X"))
  {
    var s0 := ResetLayers(st);
    DefaultNamesDiffer();
    LengthsDiffer("X", UnmutableDefaultLayerName);
    RenameFirstOfTwo(s0, "X");
  }

  /** `AsWrittenRenameDropsDefault` for a list of two layers, the first
      being the default one. */
  lemma {:induction false} RenameFirstOfTwo(st: LayerState, x: string)
    requires |st.layers| == 2 && st.defaultName == st.layers[0].name && st.defaultName != []
    requires !EqualsNoCase(st.layers[1].name, st.defaultName) && x != [] && !EqualsNoCase(x, st.defaultName)
    ensures !DefaultFound(ChangeLayerNameAsWritten(st, st.defaultName, x))
    ensures DefaultFound(ChangeLayerName(st, st.defaultName, x))
  {
    FindAt(st.layers, st.defaultName, 0);
    AsWrittenRenameDropsDefault(st, x);
  }
}
