/**
 Layered settings: recursive merging of nested dictionaries, the delta that undoes it, and the lookup
 of a hierarchical path.

 Scalars that compare equal are one value here: numbers and booleans are `Number`, with true as 1.
 */
module Settings {
  import opened Options

  datatype Variant =
    | Null
    | Number(value: real)
    | Text(text: string)
    | List(items: seq<Variant>)
    | Dict(entries: map<string, Variant>)

  const EMPTY := Dict(map[])

  /** The value of a key, Null when it is absent. */
  function Get(d: Variant, key: string): Variant
    requires d.Dict?
  {
    if key in d.entries then d.entries[key] else Null
  }

  // ---- Merging

  /** What a key holds after merging in `value`, given what it held before. */
  function MergeValue(before: Variant, value: Variant): Variant
    decreases value, 1
  {
    if value.Dict? && before.Dict? then Merge(before, value)
    else if before.Null? then value
    else before
  }

  function Merge(base: Variant, update: Variant): (r: Variant)
    requires base.Dict? && update.Dict?
    ensures r.Dict? && r.entries.Keys == base.entries.Keys + update.entries.Keys
    decreases update, 0
  {
    Dict(map k | k in base.entries.Keys + update.entries.Keys ::
      if k in update.entries then MergeValue(Get(base, k), update.entries[k]) else base.entries[k])
  }

  /** Each key keeps what it held, unless that is nothing or null; maps on both sides are merged. */
  lemma MergePrecedence(base: Variant, update: Variant, key: string)
    requires base.Dict? && update.Dict?
    ensures var before, value := Get(base, key), Get(update, key);
            Get(Merge(base, update), key) ==
              if before.Dict? && value.Dict? then Merge(before, value) else if before.Null? then value else before
  {
  }

  lemma MergeOntoEmpty(d: Variant)
    requires d.Dict?
    ensures Merge(EMPTY, d) == d && Merge(d, EMPTY) == d
  {
    assert Merge(EMPTY, d).entries == d.entries;
    assert Merge(d, EMPTY).entries == d.entries;
  }

  // ---- Deltas

  /** What is to be recorded for a key, if anything. */
  function DeltaValue(value: Variant, base: Variant): Option<Variant>
    decreases value, 1
  {
    if value.Dict? && base.Dict? then
      var delta := Delta(value, base);
      if delta.entries == map[] then None else Some(delta)
    else if value != base then Some(value)
    else None
  }

  function Delta(complete: Variant, base: Variant): (r: Variant)
    requires complete.Dict? && base.Dict?
    ensures r.Dict? && r.entries.Keys <= complete.entries.Keys
    decreases complete, 0
  {
    Dict(map k | k in complete.entries && DeltaValue(complete.entries[k], Get(base, k)).Some? ::
      DeltaValue(complete.entries[k], Get(base, k)).value)
  }

  lemma {:induction false} DeltaOfItself(d: Variant)
    requires d.Dict?
    ensures Delta(d, d) == EMPTY
    decreases d
  {
    forall k | k in d.entries
      ensures DeltaValue(d.entries[k], Get(d, k)) == None
    {
      if d.entries[k].Dict? {
        DeltaOfItself(d.entries[k]);
      }
    }
    assert Delta(d, d).entries == map[];
  }

  /**
   `complete` has every key of `base`, recursively, and is null only where `base` has a null.  In a store
   without nulls, this says that no default has been deleted.
   */
  predicate Covers(complete: Variant, base: Variant)
    requires complete.Dict? && base.Dict?
    decreases complete
  {
    && (forall k :: k in base.entries ==> k in complete.entries)
    && (forall k :: k in complete.entries ==>
          && (complete.entries[k].Null? ==> k in base.entries && base.entries[k].Null?)
          && (complete.entries[k].Dict? && Get(base, k).Dict? ==> Covers(complete.entries[k], Get(base, k))))
  }

  /** What a key holds once the delta has been saved, and reloaded over the defaults. */
  lemma RestoredValue(complete: Variant, base: Variant, k: string)
    requires complete.Dict? && base.Dict?
    ensures var r := Merge(Delta(complete, base), base);
            var before, after := Get(complete, k), Get(base, k);
            && (k in r.entries <==> k in base.entries || !before.Null?)
            && Get(r, k) == if before.Dict? && after.Dict? then Merge(Delta(before, after), after)
                            else if before.Null? then after else before
  {
    var delta := Delta(complete, base);
    var before, after := Get(complete, k), Get(base, k);
    if k in complete.entries {
      if before.Dict? && after.Dict? {
        MergeOntoEmpty(after);
        if Delta(before, after).entries == map[] {
          assert Delta(before, after) == EMPTY;
        }
      }
    }
  }

  /**
   Saving the difference from the defaults and reloading it over them restores the settings, exactly
   when they cover the defaults.
   */
  lemma {:induction false} SaveAndReloadIff(complete: Variant, base: Variant)
    requires complete.Dict? && base.Dict?
    ensures Merge(Delta(complete, base), base) == complete <==> Covers(complete, base)
    decreases complete
  {
    var r := Merge(Delta(complete, base), base);
    forall k | k in complete.entries && complete.entries[k].Dict? && Get(base, k).Dict?
      ensures Merge(Delta(complete.entries[k], Get(base, k)), Get(base, k)) == complete.entries[k]
              <==> Covers(complete.entries[k], Get(base, k))
    {
      SaveAndReloadIff(complete.entries[k], Get(base, k));
    }
    forall k
      ensures (k in r.entries <==> k in base.entries || !Get(complete, k).Null?)
      ensures Get(r, k) == if Get(complete, k).Dict? && Get(base, k).Dict?
                           then Merge(Delta(Get(complete, k), Get(base, k)), Get(base, k))
                           else if Get(complete, k).Null? then Get(base, k) else Get(complete, k)
    {
      RestoredValue(complete, base, k);
    }
    if Covers(complete, base) {
      assert r.entries.Keys == complete.entries.Keys;
      assert forall k :: k in complete.entries ==> Get(r, k) == Get(complete, k);
      assert r.entries == complete.entries;
    }
    if r == complete {
      assert forall k :: k in complete.entries ==> Get(r, k) == complete.entries[k];
    }
  }

  /** No key of the dictionary, at any depth, holds a null. */
  predicate NullFree(v: Variant) {
    !v.Null? && (v.Dict? ==> forall k :: k in v.entries ==> NullFree(v.entries[k]))
  }

  /** Whatever overrides were merged over null-free defaults, the result covers the defaults. */
  lemma {:induction false} MergedCovers(x: Variant, base: Variant)
    requires x.Dict? && base.Dict? && NullFree(x) && NullFree(base)
    ensures Covers(Merge(x, base), base)
    decreases base
  {
    var c := Merge(x, base);
    forall k | k in c.entries
      ensures !c.entries[k].Null?
      ensures c.entries[k].Dict? && Get(base, k).Dict? ==> Covers(c.entries[k], Get(base, k))
    {
      if k in base.entries {
        assert c.entries[k] == MergeValue(Get(x, k), base.entries[k]);
        assert NullFree(base.entries[k]);
        if base.entries[k].Dict? {
          if k !in x.entries {
            CoversItself(base.entries[k]);
          } else {
            assert NullFree(x.entries[k]);
            if x.entries[k].Dict? {
              MergedCovers(x.entries[k], base.entries[k]);
            }
          }
        }
      } else {
        assert NullFree(x.entries[k]);
      }
    }
  }

  lemma {:induction false} CoversItself(d: Variant)
    requires d.Dict?
    ensures Covers(d, d)
    decreases d
  {
    forall k | k in d.entries && d.entries[k].Dict?
      ensures Covers(d.entries[k], d.entries[k])
    {
      CoversItself(d.entries[k]);
    }
  }

  /** Settings made by merging overrides over the defaults survive being saved as a delta and reloaded. */
  lemma SaveAndReload(x: Variant, base: Variant)
    requires x.Dict? && base.Dict? && NullFree(x) && NullFree(base)
    ensures Merge(Delta(Merge(x, base), base), base) == Merge(x, base)
  {
    MergedCovers(x, base);
    SaveAndReloadIff(Merge(x, base), base);
  }

  /** A default that was deleted comes back, and so does one that was replaced by a null. */
  lemma DeletedDefaultsReturn(key: string, default: Variant)
    requires !default.Null?
    ensures var base := Dict(map[key := default]);
            && Merge(Delta(EMPTY, base), base) == base
            && Merge(Delta(Dict(map[key := Null]), base), base) == base
  {
    var base := Dict(map[key := default]);
    var nulled := Dict(map[key := Null]);
    assert Delta(EMPTY, base).entries == map[];
    MergeOntoEmpty(base);
    assert Delta(nulled, base).entries == map[key := Null];
    assert Merge(nulled, base).entries == map[key := default];
  }

  /** `part` is a subtree of `whole`. */
  predicate Contains(whole: Variant, part: Variant)
    decreases part
  {
    whole == part ||
    (whole.Dict? && part.Dict? &&
     forall k :: k in part.entries ==> k in whole.entries && Contains(whole.entries[k], part.entries[k]))
  }

  /** The delta is the least override: any overrides that give the same settings contain it. */
  lemma {:induction false} DeltaIsLeastOverride(x: Variant, base: Variant, complete: Variant)
    requires x.Dict? && base.Dict? && complete == Merge(x, base)
    ensures Contains(x, Delta(complete, base))
    decreases base
  {
    var delta := Delta(complete, base);
    forall k | k in delta.entries
      ensures k in x.entries && Contains(x.entries[k], delta.entries[k])
    {
      assert k in complete.entries;
      var value, default := complete.entries[k], Get(base, k);
      assert delta.entries[k] == DeltaValue(value, default).value;
      if k !in base.entries {
        assert value == x.entries[k];
      } else {
        assert value == MergeValue(Get(x, k), default);
        if value.Dict? && default.Dict? {
          if Get(x, k).Null? {
            DeltaOfItself(default);
            assert false;
          } else {
            assert x.entries[k].Dict?;
            DeltaIsLeastOverride(x.entries[k], default, value);
          }
        }
      }
    }
  }
}
