/** The settings store: a dictionary that files are merged into, saved as its difference from the defaults. */
module SettingsStores {
  import opened Options
  import opened Collections
  import opened Settings
  import opened SettingsLayers
  import opened SettingsLookups

  // ---- The recursions over the keys of a dictionary

  /** The merger of two dictionaries once the keys in `done` have been dealt with. */
  function PartlyMerged(base: map<string, Variant>, update: map<string, Variant>, done: set<string>)
    : map<string, Variant>
    requires done <= update.Keys
  {
    map k | k in base.Keys + done :: if k in done then MergeValue(Get(Dict(base), k), update[k]) else base[k]
  }

  lemma MergeOneKey(base: map<string, Variant>, update: map<string, Variant>, done: set<string>, key: string)
    requires done <= update.Keys && key in update && key !in done
    ensures var partly := PartlyMerged(base, update, done);
            && Get(Dict(partly), key) == Get(Dict(base), key)
            && partly[key := MergeValue(Get(Dict(base), key), update[key])] == PartlyMerged(base, update, done + {key})
  {
  }

  lemma NoKeysMerged(base: map<string, Variant>, update: map<string, Variant>)
    ensures PartlyMerged(base, update, update.Keys - update.Keys) == base
  {
  }

  lemma AllKeysMerged(base: map<string, Variant>, update: map<string, Variant>)
    ensures Dict(PartlyMerged(base, update, update.Keys)) == Merge(Dict(base), Dict(update))
  {
    assert PartlyMerged(base, update, update.Keys) == Merge(Dict(base), Dict(update)).entries;
  }

  /** Merges `update` into `base`, whose values take precedence. */
  method RecursiveMerge(base: map<string, Variant>, update: map<string, Variant>)
    returns (merged: map<string, Variant>)
    ensures Dict(merged) == Merge(Dict(base), Dict(update))
    decreases Dict(update), 0
  {
    NoKeysMerged(base, update);
    merged := base;
    var keys := update.Keys;
    while keys != {}
      invariant keys <= update.Keys
      invariant merged == PartlyMerged(base, update, update.Keys - keys)
      decreases |keys|
    {
      var key :| key in keys;
      MergeOneKey(base, update, update.Keys - keys, key);
      OneLess(update.Keys, keys, key);
      merged := MergeKey(merged, key, update[key]);
      keys := keys - {key};
    }
    assert update.Keys - keys == update.Keys;
    AllKeysMerged(base, update);
  }

  method MergeKey(base: map<string, Variant>, key: string, value: Variant) returns (merged: map<string, Variant>)
    ensures merged == base[key := MergeValue(Get(Dict(base), key), value)]
    decreases value, 1
  {
    var baseValue := Get(Dict(base), key);
    if value.Dict? && baseValue.Dict? {
      var sub := RecursiveMerge(baseValue.entries, value.entries);
      merged := base[key := Dict(sub)];
    } else if baseValue.Null? {
      merged := base[key := value];
    } else {
      merged := base;
    }
  }

  /** The difference between two dictionaries once the keys in `done` have been dealt with. */
  function PartlyDelta(complete: map<string, Variant>, base: map<string, Variant>, done: set<string>)
    : map<string, Variant>
    requires done <= complete.Keys
  {
    map k | k in done && DeltaValue(complete[k], Get(Dict(base), k)).Some? ::
      DeltaValue(complete[k], Get(Dict(base), k)).value
  }

  lemma DeltaOneKey(complete: map<string, Variant>, base: map<string, Variant>, done: set<string>, key: string)
    requires done <= complete.Keys && key in complete && key !in done
    ensures var change := DeltaValue(complete[key], Get(Dict(base), key));
            var partly := PartlyDelta(complete, base, done);
            PartlyDelta(complete, base, done + {key}) == if change.Some? then partly[key := change.value] else partly
  {
  }

  lemma AllKeysCompared(complete: map<string, Variant>, base: map<string, Variant>)
    ensures Dict(PartlyDelta(complete, base, complete.Keys)) == Delta(Dict(complete), Dict(base))
  {
    assert PartlyDelta(complete, base, complete.Keys) == Delta(Dict(complete), Dict(base)).entries;
  }

  /** What `complete` holds that `base` does not. */
  method RecursiveDelta(complete: map<string, Variant>, base: map<string, Variant>)
    returns (delta: map<string, Variant>)
    ensures Dict(delta) == Delta(Dict(complete), Dict(base))
    decreases Dict(complete), 0
  {
    delta := map[];
    var keys := complete.Keys;
    while keys != {}
      invariant keys <= complete.Keys
      invariant delta == PartlyDelta(complete, base, complete.Keys - keys)
      decreases |keys|
    {
      var key :| key in keys;
      DeltaOneKey(complete, base, complete.Keys - keys, key);
      OneLess(complete.Keys, keys, key);
      delta := RecordKey(delta, key, complete[key], Get(Dict(base), key));
      keys := keys - {key};
    }
    AllKeysCompared(complete, base);
  }

  method RecordKey(delta: map<string, Variant>, key: string, value: Variant, baseValue: Variant)
    returns (recorded: map<string, Variant>)
    ensures var change := DeltaValue(value, baseValue);
            recorded == if change.Some? then delta[key := change.value] else delta
    decreases value, 1
  {
    recorded := delta;
    if value.Dict? && baseValue.Dict? {
      var sub := RecursiveDelta(value.entries, baseValue.entries);
      if sub != map[] {
        recorded := delta[key := Dict(sub)];
      }
    } else if value != baseValue {
      recorded := delta[key := value];
    }
  }

  // ---- Values found in files

  /** What parsing a file gives counts as an empty file when it is null, zero, false, or has nothing in it. */
  predicate IsFalsy(v: Variant) {
    match v
    case Null => true
    case Number(x) => x == 0.0
    case Text(t) => t == ""
    case List(items) => items == []
    case Dict(entries) => entries == map[]
  }

  lemma FalsyValues(v: Variant)
    ensures IsFalsy(v) <==> v in {Null, Number(0.0), Text(""), List([]), EMPTY}
  {
  }

  /** The parsed files up to the first that holds something else than a dictionary. */
  function Loadable(files: seq<Variant>): (r: seq<Variant>)
    ensures AllDicts(r) && |r| <= |files|
    ensures forall i :: 0 <= i < |r| ==> r[i] == if IsFalsy(files[i]) then EMPTY else files[i]
    ensures |r| < |files| ==> !files[|r|].Dict? && !IsFalsy(files[|r|])
    decreases |files|
  {
    if files == [] then []
    else if IsFalsy(files[0]) then [EMPTY] + Loadable(files[1..])
    else if files[0].Dict? then [files[0]] + Loadable(files[1..])
    else []
  }

  class SettingsStore {
    var entries: map<string, Variant>

    constructor ()
      ensures Dict(entries) == EMPTY
    {
      entries := map[];
    }

    method MergeSettings(settings: map<string, Variant>)
      modifies this
      ensures Dict(entries) == Merge(old(Dict(entries)), Dict(settings))
    {
      entries := RecursiveMerge(entries, settings);
    }

    /** Merges one parsed file; anything but a dictionary, unless it is falsy, cannot be merged. */
    method MergeFile(parsed: Variant) returns (merged: bool)
      modifies this
      ensures merged <==> parsed.Dict? || IsFalsy(parsed)
      ensures !merged ==> entries == old(entries)
      ensures merged ==>
                Dict(entries) == Merge(old(Dict(entries)), if IsFalsy(parsed) then EMPTY else parsed)
    {
      var settings := if IsFalsy(parsed) then EMPTY else parsed;
      if settings.Dict? {
        MergeSettings(settings.entries);
        merged := true;
      } else {
        merged := false;
      }
    }

    /** Merges files in load order; it stops at the first that cannot be merged. */
    method LoadSettings(files: seq<Variant>) returns (loaded: bool)
      modifies this
      ensures Dict(entries) == MergeOnto(old(Dict(entries)), Loadable(files))
      ensures loaded <==> |Loadable(files)| == |files|
    {
      ghost var layers := Loadable(files);
      loaded := true;
      var i := 0;
      while i < |files| && loaded
        invariant 0 <= i <= |files|
        invariant i <= |layers| <= |files|
        invariant Dict(entries) == MergeOnto(old(Dict(entries)), layers[..i])
        invariant !loaded ==> i == |layers| < |files|
        decreases |files| - i, loaded
      {
        LoadableIffMergeable(files, i);
        loaded := MergeFile(files[i]);
        if loaded {
          MergeNext(old(Dict(entries)), layers, i);
          i := i + 1;
        }
      }
      assert layers[..|layers|] == layers;
    }

    /** Looks up a key or a hierarchical path; giving both or neither is refused. */
    method GetValue(key: Option<string>, path: seq<Component>, request: Request) returns (r: Outcome)
      ensures r == Looked(Dict(entries), key, path, request)
    {
      var hasKey := key.Some? && key.value != "";
      if (hasKey && path != []) || (!hasKey && path == []) {
        return Raised(WrongTypeError);
      }
      var components := if key.Some? then [Key(key.value)] else path;
      var value := Dict(entries);
      var i := 0;
      while i < |components|
        invariant 0 <= i <= |components|
        invariant Walk(Dict(entries), components) == Walk(value, components[i..])
      {
        var next := Descend(value, components[i]);
        assert components[i..][1..] == components[i + 1..];
        if !next.Found? {
          return Reported(next, request);
        }
        value := next.value;
        i := i + 1;
      }
      r := Converted(value, request);
    }

    /** What is written to the local settings file. */
    method SavedDelta(defaults: SettingsStore) returns (delta: map<string, Variant>)
      ensures Dict(delta) == Delta(Dict(entries), Dict(defaults.entries))
    {
      delta := RecursiveDelta(entries, defaults.entries);
    }
  }

  lemma {:induction false} LoadableIffMergeable(files: seq<Variant>, i: nat)
    requires i <= |Loadable(files)| && i < |files|
    ensures i < |Loadable(files)| <==> files[i].Dict? || IsFalsy(files[i])
    ensures i < |Loadable(files)| ==> Loadable(files)[i] == if IsFalsy(files[i]) then EMPTY else files[i]
    decreases i
  {
    if i > 0 {
      LoadableIffMergeable(files[1..], i - 1);
    }
  }

  /**
   The whole round trip through two stores: settings loaded from a local file and default files, and saved as a
   delta, are what loading the delta and the same defaults gives, unless the local file has a null at a key that
   the defaults do not have.
   */
  method SaveAndReload(local: map<string, Variant>, defaults: seq<Variant>)
    returns (before: SettingsStore, after: SettingsStore)
    requires AllDicts(defaults)
    ensures Dict(before.entries) == MergeAll([Dict(local)] + defaults)
    ensures after.entries == before.entries <==> NullsAreKnown(Dict(local), defaults)
  {
    AllLoadable([Dict(local)] + defaults);
    AllLoadable(defaults);
    before := new SettingsStore();
    var loaded := before.LoadSettings([Dict(local)] + defaults);
    var preinstalled := new SettingsStore();
    loaded := preinstalled.LoadSettings(defaults);
    var delta := before.SavedDelta(preinstalled);
    AllLoadable([Dict(delta)] + defaults);
    after := new SettingsStore();
    loaded := after.LoadSettings([Dict(delta)] + defaults);
    MergeAllCons(Dict(local), defaults);
    MergeAllCons(Dict(delta), defaults);
    LoadedSettingsSurviveIff(Dict(local), defaults);
  }

  lemma {:induction false} AllLoadable(layers: seq<Variant>)
    requires AllDicts(layers)
    ensures Loadable(layers) == layers
    decreases |layers|
  {
    if layers != [] {
      AllLoadable(layers[1..]);
      assert layers == [layers[0]] + layers[1..];
    }
  }
}
