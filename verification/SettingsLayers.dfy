/**
 Settings files in load order: the lookup of a path in the merged store, and what the store restores
 when a saved delta is loaded before the default files.
 */
module SettingsLayers {
  import opened Settings

  predicate AllDicts(layers: seq<Variant>) {
    forall i :: 0 <= i < |layers| ==> layers[i].Dict?
  }

  /** Merges files into a store, the earlier taking precedence. */
  function MergeOnto(store: Variant, layers: seq<Variant>): (r: Variant)
    requires store.Dict? && AllDicts(layers)
    ensures r.Dict?
    decreases |layers|
  {
    if layers == [] then store else MergeOnto(Merge(store, layers[0]), layers[1..])
  }

  function MergeAll(layers: seq<Variant>): (r: Variant)
    requires AllDicts(layers)
    ensures r.Dict?
  {
    MergeOnto(EMPTY, layers)
  }

  lemma {:induction false} MergeOntoSnoc(store: Variant, layers: seq<Variant>, layer: Variant)
    requires store.Dict? && AllDicts(layers) && layer.Dict?
    ensures MergeOnto(store, layers + [layer]) == Merge(MergeOnto(store, layers), layer)
    decreases |layers|
  {
    if layers == [] {
      assert ([] + [layer])[1..] == [];
    } else {
      assert (layers + [layer])[1..] == layers[1..] + [layer];
      MergeOntoSnoc(Merge(store, layers[0]), layers[1..], layer);
    }
  }

  lemma MergeNext(store: Variant, layers: seq<Variant>, i: nat)
    requires i < |layers| && store.Dict? && AllDicts(layers)
    ensures Merge(MergeOnto(store, layers[..i]), layers[i]) == MergeOnto(store, layers[..i + 1])
  {
    assert layers[..i + 1] == layers[..i] + [layers[i]];
    MergeOntoSnoc(store, layers[..i], layers[i]);
  }

  lemma MergeAllCons(d: Variant, layers: seq<Variant>)
    requires d.Dict? && AllDicts(layers)
    ensures MergeAll([d] + layers) == MergeOnto(d, layers)
  {
    MergeOntoEmpty(d);
    assert ([d] + layers)[1..] == layers;
  }

  // ---- One key across all files

  /** The values of a key in the files that have it, in load order. */
  function Values(layers: seq<Variant>, key: string): seq<Variant>
    requires AllDicts(layers)
    decreases |layers|
  {
    if layers == [] then []
    else (if key in layers[0].entries then [layers[0].entries[key]] else []) + Values(layers[1..], key)
  }

  function FirstNonNull(values: seq<Variant>): Variant
    decreases |values|
  {
    if values == [] then Null
    else if !values[0].Null? then values[0]
    else FirstNonNull(values[1..])
  }

  function Maps(values: seq<Variant>): (r: seq<Variant>)
    ensures AllDicts(r)
    decreases |values|
  {
    if values == [] then []
    else (if values[0].Dict? then [values[0]] else []) + Maps(values[1..])
  }

  /** Merges the values of one key, one after the other. */
  function MergeValues(before: Variant, values: seq<Variant>): Variant
    decreases |values|
  {
    if values == [] then before else MergeValues(MergeValue(before, values[0]), values[1..])
  }

  lemma {:induction false} KeyOfMerged(store: Variant, layers: seq<Variant>, key: string)
    requires store.Dict? && AllDicts(layers)
    ensures Get(MergeOnto(store, layers), key) == MergeValues(Get(store, key), Values(layers, key))
    ensures key in MergeOnto(store, layers).entries <==> key in store.entries || Values(layers, key) != []
    decreases |layers|
  {
    if layers != [] {
      var merged, layer := Merge(store, layers[0]), layers[0];
      KeyOfMerged(merged, layers[1..], key);
      if key in layer.entries {
        MergePrecedence(store, layer, key);
        assert Get(merged, key) == MergeValue(Get(store, key), layer.entries[key]);
        assert Values(layers, key)[1..] == Values(layers[1..], key);
      } else {
        assert Get(merged, key) == Get(store, key);
        assert Values(layers, key) == Values(layers[1..], key);
      }
    }
  }

  lemma {:induction false} ScalarIsKept(before: Variant, values: seq<Variant>)
    requires !before.Null? && !before.Dict?
    ensures MergeValues(before, values) == before
    decreases |values|
  {
    if values != [] {
      ScalarIsKept(before, values[1..]);
    }
  }

  lemma {:induction false} MapTakesMaps(before: Variant, values: seq<Variant>)
    requires before.Dict?
    ensures MergeValues(before, values) == MergeOnto(before, Maps(values))
    decreases |values|
  {
    if values != [] {
      if values[0].Dict? {
        assert Maps(values)[1..] == Maps(values[1..]);
        MapTakesMaps(Merge(before, values[0]), values[1..]);
      } else {
        assert Maps(values) == Maps(values[1..]);
        MapTakesMaps(before, values[1..]);
      }
    }
  }

  /** The first file that defines a key decides; when it holds a map, only the maps of later files matter. */
  lemma {:induction false} FirstDecides(values: seq<Variant>)
    ensures MergeValues(Null, values)
         == if FirstNonNull(values).Dict? then MergeAll(Maps(values)) else FirstNonNull(values)
    decreases |values|
  {
    if values != [] {
      if values[0].Null? {
        FirstDecides(values[1..]);
        assert Maps(values) == Maps(values[1..]);
      } else if values[0].Dict? {
        MapTakesMaps(values[0], values[1..]);
        MergeAllCons(values[0], Maps(values[1..]));
      } else {
        ScalarIsKept(values[0], values[1..]);
      }
    }
  }

  // ---- Lookup of a path

  datatype Component = Key(name: string) | Index(index: int)

  datatype Lookup = Found(value: Variant) | MissingKey | IndexOutOfRange | WrongType

  /** One component: a string descends into a map, an integer (negative: from the end) into a list. */
  function Descend(value: Variant, component: Component): Lookup {
    match component
    case Key(name) =>
      if !value.Dict? then WrongType
      else if name in value.entries then Found(value.entries[name])
      else MissingKey
    case Index(i) =>
      if !value.List? then WrongType
      else if 0 <= i < |value.items| then Found(value.items[i])
      else if -|value.items| <= i < 0 then Found(value.items[|value.items| + i])
      else IndexOutOfRange
  }

  function Walk(value: Variant, path: seq<Component>): Lookup
    decreases |path|
  {
    if path == [] then Found(value)
    else
      var next := Descend(value, path[0]);
      if next.Found? then Walk(next.value, path[1..]) else next
  }

  /** What a path leads to in files that are not merged: an answer, or the maps that remain to be merged. */
  datatype Resolution = Answer(lookup: Lookup) | Layers(layers: seq<Variant>)

  function Resolve(layers: seq<Variant>, path: seq<Component>): (r: Resolution)
    requires AllDicts(layers)
    ensures r.Layers? ==> AllDicts(r.layers)
    decreases |path|
  {
    if path == [] then Layers(layers)
    else if path[0].Index? then Answer(WrongType)
    else
      var values := Values(layers, path[0].name);
      if values == [] then Answer(MissingKey)
      else if FirstNonNull(values).Dict? then Resolve(Maps(values), path[1..])
      else Answer(Walk(FirstNonNull(values), path[1..]))
  }

  /** Looking up a path in the merged store finds what searching the files in load order finds. */
  lemma {:induction false} LookupSearchesFilesInOrder(layers: seq<Variant>, path: seq<Component>)
    requires AllDicts(layers)
    ensures Walk(MergeAll(layers), path)
         == match Resolve(layers, path)
            case Answer(lookup) => lookup
            case Layers(maps) => Found(MergeAll(maps))
    decreases |path|
  {
    if path != [] && path[0].Key? {
      var key := path[0].name;
      var values := Values(layers, key);
      KeyOfMerged(EMPTY, layers, key);
      FirstDecides(values);
      if values != [] && FirstNonNull(values).Dict? {
        LookupSearchesFilesInOrder(Maps(values), path[1..]);
      }
    }
  }

  // ---- Reloading a saved delta before the default files

  /** The maps that the files hold at a path of keys, each next to whatever other files hold there. */
  function MapsAt(layers: seq<Variant>, path: seq<string>): (r: seq<Variant>)
    requires AllDicts(layers)
    ensures AllDicts(r)
    decreases |path|
  {
    if path == [] then layers else MapsAt(Maps(Values(layers, path[0])), path[1..])
  }

  predicate AllEmpty(maps: seq<Variant>) {
    forall i :: 0 <= i < |maps| ==> maps[i] == EMPTY
  }

  /** Where the first file that defines the key holds no map, no later file holds a map with entries. */
  predicate AgreeOn(layers: seq<Variant>, key: string)
    requires AllDicts(layers)
  {
    FirstNonNull(Values(layers, key)).Dict? || AllEmpty(Maps(Values(layers, key)))
  }

  /** The files agree on which settings are maps. */
  ghost predicate Uniform(layers: seq<Variant>)
    requires AllDicts(layers)
  {
    forall path: seq<string>, key :: AgreeOn(MapsAt(layers, path), key)
  }

  lemma MapsBelow(layers: seq<Variant>, key: string, path: seq<string>)
    requires AllDicts(layers)
    ensures MapsAt(layers, [key] + path) == MapsAt(Maps(Values(layers, key)), path)
  {
    assert ([key] + path)[1..] == path;
  }

  lemma UniformBelow(layers: seq<Variant>, key: string)
    requires AllDicts(layers) && Uniform(layers)
    ensures Uniform(Maps(Values(layers, key)))
  {
    forall path: seq<string>, k
      ensures AgreeOn(MapsAt(Maps(Values(layers, key)), path), k)
    {
      MapsBelow(layers, key, path);
      assert AgreeOn(MapsAt(layers, [key] + path), k);
    }
  }

  lemma {:induction false} EmptyMapsAddNothing(d: Variant, maps: seq<Variant>)
    requires d.Dict? && AllDicts(maps) && AllEmpty(maps)
    ensures MergeOnto(d, maps) == d
    decreases |maps|
  {
    if maps != [] {
      MergeOntoEmpty(d);
      EmptyMapsAddNothing(d, maps[1..]);
    }
  }

  /** What one key holds after loading a file before the others, and after merging it with their merger. */
  lemma LoadedFirst(d: Variant, layers: seq<Variant>, key: string)
    requires d.Dict? && AllDicts(layers)
    ensures var values := Values(layers, key);
            var first := FirstNonNull(values);
            var loaded, merged := MergeAll([d] + layers), Merge(d, MergeAll(layers));
            && (key in loaded.entries <==> key in merged.entries)
            && (if Get(d, key).Dict? then
                  && Get(loaded, key) == MergeOnto(Get(d, key), Maps(values))
                  && Get(merged, key) == if first.Dict? then Merge(Get(d, key), MergeAll(Maps(values))) else Get(d, key)
                else Get(loaded, key) == Get(merged, key))
  {
    var values := Values(layers, key);
    MergeAllCons(d, layers);
    KeyOfMerged(d, layers, key);
    KeyOfMerged(EMPTY, layers, key);
    FirstDecides(values);
    assert Get(Merge(d, MergeAll(layers)), key) == MergeValue(Get(d, key), Get(MergeAll(layers), key));
    if Get(d, key).Dict? {
      MapTakesMaps(Get(d, key), values);
    } else if !Get(d, key).Null? {
      ScalarIsKept(Get(d, key), values);
    }
  }

  /** A file loaded before uniform files is merged with them as if they had been merged already. */
  lemma {:induction false} LoadsAsOne(d: Variant, layers: seq<Variant>)
    requires d.Dict? && AllDicts(layers) && Uniform(layers)
    ensures MergeAll([d] + layers) == Merge(d, MergeAll(layers))
    decreases d
  {
    var loaded, merged := MergeAll([d] + layers), Merge(d, MergeAll(layers));
    forall key
      ensures key in loaded.entries <==> key in merged.entries
      ensures Get(loaded, key) == Get(merged, key)
    {
      LoadedFirst(d, layers, key);
      var below := Get(d, key);
      if below.Dict? {
        var values := Values(layers, key);
        if FirstNonNull(values).Dict? {
          UniformBelow(layers, key);
          LoadsAsOne(below, Maps(values));
          MergeAllCons(below, Maps(values));
        } else {
          assert AgreeOn(MapsAt(layers, []), key);
          EmptyMapsAddNothing(below, Maps(values));
        }
      }
    }
    SameEntries(loaded, merged);
  }

  lemma SameEntries(d: Variant, e: Variant)
    requires d.Dict? && e.Dict?
    requires forall key :: (key in d.entries <==> key in e.entries) && Get(d, key) == Get(e, key)
    ensures d == e
  {
    assert forall key :: key in d.entries ==> d.entries[key] == Get(d, key) && e.entries[key] == Get(e, key);
    assert d.entries == e.entries;
  }

  lemma {:induction false} SomeEntryIsMerged(store: Variant, maps: seq<Variant>)
    requires store.Dict? && AllDicts(maps) && (store != EMPTY || !AllEmpty(maps))
    ensures MergeOnto(store, maps) != EMPTY
    decreases |maps|
  {
    if maps == [] {
    } else {
      var merged := Merge(store, maps[0]);
      if store != EMPTY {
        assert store.entries != map[];
        var key :| key in store.entries;
        assert key in merged.entries;
      } else if maps[0] != EMPTY {
        MergeOntoEmpty(maps[0]);
      } else {
        MergeOntoEmpty(EMPTY);
        assert exists i :: 0 < i < |maps| && maps[i] != EMPTY;
        var i :| 0 < i < |maps| && maps[i] != EMPTY;
        assert maps[1..][i - 1] != EMPTY;
      }
      SomeEntryIsMerged(merged, maps[1..]);
    }
  }

  /** A file that shows a disagreement: an empty map where an earlier file's scalar hides later maps. */
  lemma {:induction false} DisagreementShows(layers: seq<Variant>, path: seq<string>, key: string) returns (d: Variant)
    requires AllDicts(layers) && !AgreeOn(MapsAt(layers, path), key)
    ensures d.Dict? && MergeAll([d] + layers) != Merge(d, MergeAll(layers))
    decreases |path|
  {
    var k := if path == [] then key else path[0];
    var maps := Maps(Values(layers, k));
    if AgreeOn(layers, k) {
      if !FirstNonNull(Values(layers, k)).Dict? {
        EmptyMapsAgree(maps, path[1..], key);
        assert false;
      }
      var below := DisagreementShows(maps, path[1..], key);
      d := Dict(map[k := below]);
      LoadedFirst(d, layers, k);
      MergeAllCons(below, maps);
    } else {
      d := Dict(map[k := EMPTY]);
      LoadedFirst(d, layers, k);
      SomeEntryIsMerged(EMPTY, maps);
    }
  }

  lemma {:induction false} EmptyMapsAgree(maps: seq<Variant>, path: seq<string>, key: string)
    requires AllDicts(maps) && AllEmpty(maps)
    ensures AgreeOn(MapsAt(maps, path), key)
    decreases |path|
  {
    NoValues(maps, if path == [] then key else path[0]);
    if path != [] {
      EmptyMapsAgree([], path[1..], key);
    }
  }

  lemma {:induction false} NoValues(maps: seq<Variant>, key: string)
    requires AllDicts(maps) && AllEmpty(maps)
    ensures Values(maps, key) == []
    decreases |maps|
  {
    if maps != [] {
      NoValues(maps[1..], key);
    }
  }

  /** Files merge into any file loaded before them as one exactly when they agree on which settings are maps. */
  lemma LoadAsOneIffUniform(layers: seq<Variant>)
    requires AllDicts(layers)
    ensures (forall d: Variant :: d.Dict? ==> MergeAll([d] + layers) == Merge(d, MergeAll(layers))) <==> Uniform(layers)
  {
    if Uniform(layers) {
      forall d: Variant | d.Dict?
        ensures MergeAll([d] + layers) == Merge(d, MergeAll(layers))
      {
        LoadsAsOne(d, layers);
      }
    } else {
      var path: seq<string>, key :| !AgreeOn(MapsAt(layers, path), key);
      var d := DisagreementShows(layers, path, key);
    }
  }

  /**
   A saved delta, loaded before the default files it was taken against, restores the settings exactly when
   they cover the defaults.  This needs default files that agree on which settings are maps.
   */
  lemma SavedDeltaReloads(complete: Variant, defaults: seq<Variant>)
    requires complete.Dict? && AllDicts(defaults) && Uniform(defaults)
    ensures MergeAll([Delta(complete, MergeAll(defaults))] + defaults) == complete
       <==> Covers(complete, MergeAll(defaults))
  {
    var base := MergeAll(defaults);
    LoadsAsOne(Delta(complete, base), defaults);
    SaveAndReloadIff(complete, base);
  }

  // ---- Which edits are lost when the files disagree

  /** Changing one key of the merged files to a map leaves the others covered. */
  lemma EditedCovers(base: Variant, k: string, value: Variant)
    requires base.Dict? && value.Dict? && (Get(base, k).Dict? ==> Covers(value, Get(base, k)))
    ensures Covers(Dict(base.entries[k := value]), base)
  {
    var c := Dict(base.entries[k := value]);
    forall x | x in c.entries && c.entries[x].Dict? && Get(base, x).Dict?
      ensures Covers(c.entries[x], Get(base, x))
    {
      if x != k {
        CoversItself(base.entries[x]);
      }
    }
  }

  /** What reloading makes of a key that was changed to a map. */
  lemma EditedKey(layers: seq<Variant>, k: string, value: Variant)
    requires AllDicts(layers) && value.Dict?
    ensures var base := MergeAll(layers);
            var delta := Delta(Dict(base.entries[k := value]), base);
            var maps := Maps(Values(layers, k));
            Get(MergeOnto(delta, layers), k) ==
              if FirstNonNull(Values(layers, k)).Dict? then MergeOnto(Delta(value, MergeAll(maps)), maps)
              else MergeOnto(value, maps)
  {
    var base := MergeAll(layers);
    var complete := Dict(base.entries[k := value]);
    var delta := Delta(complete, base);
    var values := Values(layers, k);
    KeyOfMerged(EMPTY, layers, k);
    KeyOfMerged(delta, layers, k);
    FirstDecides(values);
    assert k in complete.entries && complete.entries[k] == value;
    if Get(base, k).Dict? {
      var change := Delta(value, Get(base, k));
      if change.entries == map[] {
        assert change == EMPTY;
      } else {
        MapTakesMaps(change, values);
      }
    } else {
      MapTakesMaps(value, values);
    }
  }

  /** Settings that cover the merged files, but are lost: a map put where a plain value hides maps of later files. */
  lemma {:induction false} DisagreementLosesEdit(layers: seq<Variant>, path: seq<string>, key: string)
    returns (complete: Variant)
    requires AllDicts(layers) && !AgreeOn(MapsAt(layers, path), key)
    ensures complete.Dict? && Covers(complete, MergeAll(layers))
    ensures MergeOnto(Delta(complete, MergeAll(layers)), layers) != complete
    decreases |path|
  {
    var k := if path == [] then key else path[0];
    var maps := Maps(Values(layers, k));
    var value: Variant;
    KeyOfMerged(EMPTY, layers, k);
    FirstDecides(Values(layers, k));
    if AgreeOn(layers, k) {
      if !FirstNonNull(Values(layers, k)).Dict? {
        EmptyMapsAgree(maps, path[1..], key);
        assert false;
      }
      value := DisagreementLosesEdit(maps, path[1..], key);
    } else {
      value := EMPTY;
      SomeEntryIsMerged(EMPTY, maps);
    }
    complete := Dict(MergeAll(layers).entries[k := value]);
    EditedCovers(MergeAll(layers), k, value);
    EditedKey(layers, k, value);
  }

  lemma TwoLayers(store: Variant, a: Variant, b: Variant)
    requires store.Dict? && a.Dict? && b.Dict?
    ensures MergeOnto(store, [a, b]) == Merge(Merge(store, a), b)
  {
    assert [a, b][1..] == [b];
    assert MergeOnto(Merge(store, a), [b]) == MergeOnto(Merge(Merge(store, a), b), []);
  }

  /** A setting that is a plain value in one file and a map in a later one, changed to an empty map, is refilled. */
  lemma EmptiedMapIsRefilled(k: string, entries: map<string, Variant>)
    requires entries != map[]
    ensures var files := [Dict(map[k := Number(1.0)]), Dict(map[k := Dict(entries)])];
            var edited := Dict(map[k := EMPTY]);
            && Covers(edited, MergeAll(files))
            && MergeAll([Delta(edited, MergeAll(files))] + files) == Dict(map[k := Dict(entries)])
  {
    var first, second := Dict(map[k := Number(1.0)]), Dict(map[k := Dict(entries)]);
    var files, edited := [first, second], Dict(map[k := EMPTY]);
    TwoLayers(EMPTY, first, second);
    TwoLayers(edited, first, second);
    MergeOntoEmpty(first);
    OneKeyMerged(k, Number(1.0), Dict(entries));
    assert MergeAll(files) == first;
    assert Delta(edited, first).entries == edited.entries;
    MergeAllCons(edited, files);
    OneKeyMerged(k, EMPTY, Number(1.0));
    MergeOntoEmpty(Dict(entries));
    OneKeyMerged(k, EMPTY, Dict(entries));
  }

  lemma OneKeyMerged(k: string, v: Variant, w: Variant)
    ensures Merge(Dict(map[k := v]), Dict(map[k := w])) == Dict(map[k := MergeValue(v, w)])
  {
    assert Merge(Dict(map[k := v]), Dict(map[k := w])).entries == map[k := MergeValue(v, w)];
  }

  /**
   All settings that cover the default files survive being saved as a delta and reloaded exactly when the files
   agree on which settings are maps.
   */
  lemma CoveringSettingsSurviveIffUniform(defaults: seq<Variant>)
    requires AllDicts(defaults)
    ensures (forall c: Variant :: c.Dict? && Covers(c, MergeAll(defaults)) ==>
               MergeAll([Delta(c, MergeAll(defaults))] + defaults) == c) <==> Uniform(defaults)
  {
    if Uniform(defaults) {
      forall c: Variant | c.Dict? && Covers(c, MergeAll(defaults))
        ensures MergeAll([Delta(c, MergeAll(defaults))] + defaults) == c
      {
        SavedDeltaReloads(c, defaults);
      }
    } else {
      var path: seq<string>, key :| !AgreeOn(MapsAt(defaults, path), key);
      var c := DisagreementLosesEdit(defaults, path, key);
      MergeAllCons(Delta(c, MergeAll(defaults)), defaults);
    }
  }

  // ---- Settings that were only loaded

  /** Merging `base` into `complete` would change nothing. */
  predicate Absorbs(complete: Variant, base: Variant)
    requires complete.Dict? && base.Dict?
    decreases base
  {
    forall k :: k in base.entries ==>
      && k in complete.entries
      && (complete.entries[k].Null? ==> base.entries[k].Null?)
      && (complete.entries[k].Dict? && base.entries[k].Dict? ==> Absorbs(complete.entries[k], base.entries[k]))
  }

  lemma {:induction false} AbsorbedAddsNothing(complete: Variant, base: Variant)
    requires complete.Dict? && base.Dict? && Absorbs(complete, base)
    ensures Merge(complete, base) == complete
    decreases base
  {
    forall k | k in base.entries
      ensures MergeValue(Get(complete, k), base.entries[k]) == complete.entries[k]
    {
      if complete.entries[k].Dict? && base.entries[k].Dict? {
        AbsorbedAddsNothing(complete.entries[k], base.entries[k]);
      }
    }
    assert Merge(complete, base).entries == complete.entries;
  }

  lemma {:induction false} AbsorbsItself(d: Variant)
    requires d.Dict?
    ensures Absorbs(d, d)
    decreases d
  {
    forall k | k in d.entries && d.entries[k].Dict?
      ensures Absorbs(d.entries[k], d.entries[k])
    {
      AbsorbsItself(d.entries[k]);
    }
  }

  lemma {:induction false} MergedAbsorbs(x: Variant, base: Variant)
    requires x.Dict? && base.Dict?
    ensures Absorbs(Merge(x, base), base)
    decreases base
  {
    var c := Merge(x, base);
    forall k | k in base.entries
      ensures c.entries[k].Null? ==> base.entries[k].Null?
      ensures c.entries[k].Dict? && base.entries[k].Dict? ==> Absorbs(c.entries[k], base.entries[k])
    {
      assert c.entries[k] == MergeValue(Get(x, k), base.entries[k]);
      if base.entries[k].Dict? {
        if Get(x, k).Dict? {
          MergedAbsorbs(Get(x, k), base.entries[k]);
        } else {
          AbsorbsItself(base.entries[k]);
        }
      }
    }
  }

  /** What is absorbed stays absorbed whatever else is merged in. */
  lemma {:induction false} AbsorbsFurther(c: Variant, base: Variant, more: Variant)
    requires c.Dict? && base.Dict? && more.Dict? && Absorbs(c, base)
    ensures Absorbs(Merge(c, more), base)
    decreases base
  {
    var m := Merge(c, more);
    forall k | k in base.entries
      ensures m.entries[k].Null? ==> base.entries[k].Null?
      ensures m.entries[k].Dict? && base.entries[k].Dict? ==> Absorbs(m.entries[k], base.entries[k])
    {
      if k in more.entries {
        assert m.entries[k] == MergeValue(c.entries[k], more.entries[k]);
        if c.entries[k].Dict? && more.entries[k].Dict? && base.entries[k].Dict? {
          AbsorbsFurther(c.entries[k], base.entries[k], more.entries[k]);
        }
      } else {
        assert m.entries[k] == c.entries[k];
      }
    }
  }

  lemma {:induction false} StoreAbsorbsFurther(c: Variant, base: Variant, layers: seq<Variant>)
    requires c.Dict? && base.Dict? && AllDicts(layers) && Absorbs(c, base)
    ensures Absorbs(MergeOnto(c, layers), base)
    decreases |layers|
  {
    if layers != [] {
      AbsorbsFurther(c, base, layers[0]);
      StoreAbsorbsFurther(Merge(c, layers[0]), base, layers[1..]);
    }
  }

  lemma {:induction false} StoreAbsorbsLayers(store: Variant, layers: seq<Variant>, i: nat)
    requires store.Dict? && AllDicts(layers) && i < |layers|
    ensures Absorbs(MergeOnto(store, layers), layers[i])
    decreases |layers|
  {
    var merged := Merge(store, layers[0]);
    if i == 0 {
      MergedAbsorbs(store, layers[0]);
      StoreAbsorbsFurther(merged, layers[0], layers[1..]);
    } else {
      StoreAbsorbsLayers(merged, layers[1..], i - 1);
    }
  }

  lemma {:induction false} AbsorbedLayersAddNothing(c: Variant, layers: seq<Variant>)
    requires c.Dict? && AllDicts(layers) && forall i :: 0 <= i < |layers| ==> Absorbs(c, layers[i])
    ensures MergeOnto(c, layers) == c
    decreases |layers|
  {
    if layers != [] {
      AbsorbedAddsNothing(c, layers[0]);
      AbsorbedLayersAddNothing(c, layers[1..]);
    }
  }

  /** Loading the same files twice is the same as loading them once. */
  lemma MergingTwiceAddsNothing(store: Variant, layers: seq<Variant>)
    requires store.Dict? && AllDicts(layers)
    ensures MergeOnto(MergeOnto(store, layers), layers) == MergeOnto(store, layers)
  {
    forall i | 0 <= i < |layers|
      ensures Absorbs(MergeOnto(store, layers), layers[i])
    {
      StoreAbsorbsLayers(store, layers, i);
    }
    AbsorbedLayersAddNothing(MergeOnto(store, layers), layers);
  }

  /** The local settings have a null only where some file has the key too, in maps that the files have as maps. */
  predicate NullsAreKnown(local: Variant, layers: seq<Variant>)
    requires local.Dict? && AllDicts(layers)
    decreases local
  {
    forall k :: k in local.entries ==>
      && (local.entries[k].Null? ==> Values(layers, k) != [])
      && (local.entries[k].Dict? && FirstNonNull(Values(layers, k)).Dict? ==>
            NullsAreKnown(local.entries[k], Maps(Values(layers, k))))
  }

  /** What one key holds in settings loaded from a local file and others, and after saving and reloading them. */
  lemma RestoredKey(local: Variant, layers: seq<Variant>, k: string)
    requires local.Dict? && AllDicts(layers)
    ensures var settings := MergeOnto(local, layers);
            var restored := MergeOnto(Delta(settings, MergeAll(layers)), layers);
            var values, below := Values(layers, k), Get(local, k);
            var maps := Maps(values);
            && (k in settings.entries <==> k in local.entries || values != [])
            && (k in restored.entries <==> (k in local.entries && !below.Null?) || values != [])
            && (if below.Dict? && FirstNonNull(values).Dict? then
                  && Get(settings, k) == MergeOnto(below, maps)
                  && Get(restored, k) == MergeOnto(Delta(MergeOnto(below, maps), MergeAll(maps)), maps)
                else Get(restored, k) == Get(settings, k))
  {
    KeyOfMerged(local, layers, k);
    KeyOfMerged(Delta(MergeOnto(local, layers), MergeAll(layers)), layers, k);
    RestoredDelta(local, layers, k);
  }

  lemma RestoredDelta(local: Variant, layers: seq<Variant>, k: string)
    requires local.Dict? && AllDicts(layers)
    ensures var settings := MergeOnto(local, layers);
            var delta := Delta(settings, MergeAll(layers));
            var values, below := Values(layers, k), Get(local, k);
            var maps := Maps(values);
            && (k in delta.entries && values == [] ==> k in local.entries && !below.Null?)
            && (k in local.entries && !below.Null? && values == [] ==> k in delta.entries)
            && (below.Dict? ==> Get(settings, k) == MergeOnto(below, maps))
            && (if below.Dict? && FirstNonNull(values).Dict? then
                  MergeValues(Get(delta, k), values) == MergeOnto(Delta(MergeOnto(below, maps), MergeAll(maps)), maps)
                else MergeValues(Get(delta, k), values) == Get(settings, k))
  {
    var settings, base := MergeOnto(local, layers), MergeAll(layers);
    var delta := Delta(settings, base);
    var values, below := Values(layers, k), Get(local, k);
    var maps := Maps(values);
    KeyOfMerged(local, layers, k);
    KeyOfMerged(EMPTY, layers, k);
    FirstDecides(values);
    if below.Null? {
      if Get(base, k).Dict? {
        DeltaOfItself(Get(base, k));
      }
    } else if below.Dict? {
      MapTakesMaps(below, values);
      if FirstNonNull(values).Dict? {
        var change := Delta(MergeOnto(below, maps), MergeAll(maps));
        if change.entries == map[] {
          assert change == EMPTY;
        } else {
          MapTakesMaps(change, values);
        }
      } else {
        MapTakesMaps(MergeOnto(below, maps), values);
        MergingTwiceAddsNothing(below, maps);
      }
    } else {
      ScalarIsKept(below, values);
    }
  }

  /**
   Settings loaded from a local file and default files, which need not agree, survive being saved as a delta and
   reloaded exactly when every null in the local file is at a key that the defaults have.
   */
  lemma {:induction false} LoadedSettingsSurviveIff(local: Variant, defaults: seq<Variant>)
    requires local.Dict? && AllDicts(defaults)
    ensures var settings := MergeOnto(local, defaults);
            MergeOnto(Delta(settings, MergeAll(defaults)), defaults) == settings <==> NullsAreKnown(local, defaults)
    decreases local
  {
    var settings := MergeOnto(local, defaults);
    var restored := MergeOnto(Delta(settings, MergeAll(defaults)), defaults);
    forall k
      ensures SurvivesAt(local, defaults, settings, restored, k)
    {
      RestoredKey(local, defaults, k);
      if Get(local, k).Dict? && FirstNonNull(Values(defaults, k)).Dict? {
        LoadedSettingsSurviveIff(local.entries[k], Maps(Values(defaults, k)));
      }
    }
    if NullsAreKnown(local, defaults) {
      forall k
        ensures (k in restored.entries <==> k in settings.entries) && Get(restored, k) == Get(settings, k)
      {
        assert SurvivesAt(local, defaults, settings, restored, k);
      }
      SameEntries(restored, settings);
    }
    if restored == settings {
      forall k | k in local.entries
        ensures local.entries[k].Null? ==> Values(defaults, k) != []
        ensures local.entries[k].Dict? && FirstNonNull(Values(defaults, k)).Dict? ==>
                  NullsAreKnown(local.entries[k], Maps(Values(defaults, k)))
      {
        assert SurvivesAt(local, defaults, settings, restored, k);
      }
    }
  }

  /** A key of the settings is restored exactly when the nulls at it, and below it, are known. */
  predicate SurvivesAt(local: Variant, layers: seq<Variant>, settings: Variant, restored: Variant, k: string)
    requires local.Dict? && AllDicts(layers) && settings.Dict? && restored.Dict?
  {
    && (k in local.entries && local.entries[k].Null? && Values(layers, k) == [] <==>
          !(k in restored.entries <==> k in settings.entries))
    && (Get(local, k).Dict? && FirstNonNull(Values(layers, k)).Dict? ==>
          (Get(restored, k) == Get(settings, k) <==> NullsAreKnown(Get(local, k), Maps(Values(layers, k)))))
    && (!(Get(local, k).Dict? && FirstNonNull(Values(layers, k)).Dict?) ==> Get(restored, k) == Get(settings, k))
  }

  lemma {:induction false} NullFreeIsKnown(local: Variant, layers: seq<Variant>)
    requires local.Dict? && NullFree(local) && AllDicts(layers)
    ensures NullsAreKnown(local, layers)
    decreases local
  {
    forall k | k in local.entries
      ensures !local.entries[k].Null?
      ensures local.entries[k].Dict? && FirstNonNull(Values(layers, k)).Dict? ==>
                NullsAreKnown(local.entries[k], Maps(Values(layers, k)))
    {
      assert NullFree(local.entries[k]);
      if local.entries[k].Dict? {
        NullFreeIsKnown(local.entries[k], Maps(Values(layers, k)));
      }
    }
  }

  /** Local settings without nulls, over any default files, survive being saved as a delta and reloaded. */
  lemma LocalSettingsSurvive(local: Variant, defaults: seq<Variant>)
    requires local.Dict? && AllDicts(defaults) && NullFree(local)
    ensures var settings := MergeAll([local] + defaults);
            MergeAll([Delta(settings, MergeAll(defaults))] + defaults) == settings
  {
    var settings := MergeAll([local] + defaults);
    NullFreeIsKnown(local, defaults);
    LoadedSettingsSurviveIff(local, defaults);
    MergeAllCons(local, defaults);
    MergeAllCons(Delta(settings, MergeAll(defaults)), defaults);
  }
}
