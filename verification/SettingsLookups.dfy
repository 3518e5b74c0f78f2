/** What looking up a setting gives its caller, whether it is there or not, and over the files it was loaded from. */
module SettingsLookups {
  import opened Options
  import opened Settings
  import opened SettingsLayers

  datatype Problem = MissingKeyError | IndexRangeError | WrongTypeError

  datatype Outcome = Value(value: Variant) | Raised(problem: Problem)

  /** The types a value may have, and the conversion of a text to them. */
  datatype Expected = Anything | Expected(accepts: Variant -> bool, convert: string -> Option<Variant>)

  datatype Request = Request(default: Variant, expected: Expected, raiseInvalidType: bool, raiseMissing: bool)

  function Converted(value: Variant, request: Request): Outcome {
    if request.expected.Anything? || request.expected.accepts(value) then Value(value)
    else if value.Text? && request.expected.convert(value.text).Some? then
      Value(request.expected.convert(value.text).value)
    else if request.raiseInvalidType then Raised(WrongTypeError)
    else Value(request.default)
  }

  /** What a lookup gives its caller: the value, converted if need be, the default, or an exception. */
  function Reported(lookup: Lookup, request: Request): Outcome {
    match lookup
    case Found(value) => Converted(value, request)
    case MissingKey => if request.raiseMissing then Raised(MissingKeyError) else Value(request.default)
    case IndexOutOfRange => if request.raiseMissing then Raised(IndexRangeError) else Value(request.default)
    case WrongType => if request.raiseInvalidType then Raised(WrongTypeError) else Value(request.default)
  }

  /** The path that is looked up, if exactly one of a key and a path is given; an empty key hides a path. */
  function LookupPath(key: Option<string>, path: seq<Component>): Option<seq<Component>> {
    var hasKey := key.Some? && key.value != "";
    if hasKey == (path != []) then None
    else if key.Some? then Some([Key(key.value)])
    else Some(path)
  }

  function Looked(store: Variant, key: Option<string>, path: seq<Component>, request: Request): Outcome {
    var components := LookupPath(key, path);
    if components.None? then Raised(WrongTypeError) else Reported(Walk(store, components.value), request)
  }

  // ---- The values on a path

  /** A name leads to what a map holds under it, an index to an item of a list, counted from its end if negative. */
  predicate LeadsTo(value: Variant, component: Component, next: Variant) {
    match component
    case Key(name) => value.Dict? && name in value.entries && next == value.entries[name]
    case Index(i) =>
      && value.List?
      && ((0 <= i < |value.items| && next == value.items[i])
          || (i < 0 <= |value.items| + i && next == value.items[|value.items| + i]))
  }

  /** The values that a path leads to, one after the other. */
  predicate IsTrace(vs: seq<Variant>, value: Variant, path: seq<Component>) {
    && 0 < |vs| <= |path| + 1 && vs[0] == value
    && forall i :: 0 <= i < |vs| - 1 ==> LeadsTo(vs[i], path[i], vs[i + 1])
  }

  predicate IsMissingKey(value: Variant, component: Component) {
    component.Key? && value.Dict? && component.name !in value.entries
  }

  predicate IsOutOfRange(value: Variant, component: Component) {
    component.Index? && value.List? && !(-|value.items| <= component.index < |value.items|)
  }

  predicate IsOfWrongType(value: Variant, component: Component) {
    if component.Key? then !value.Dict? else !value.List?
  }

  /** Every path can be followed to its end, or to a value that does not lead on. */
  lemma {:induction false} PathIsTraced(value: Variant, path: seq<Component>) returns (vs: seq<Variant>)
    ensures IsTrace(vs, value, path)
    ensures |vs| <= |path| ==>
              var v, c := vs[|vs| - 1], path[|vs| - 1];
              IsMissingKey(v, c) || IsOutOfRange(v, c) || IsOfWrongType(v, c)
    decreases |path|
  {
    if path != [] && Descend(value, path[0]).Found? {
      var rest := PathIsTraced(Descend(value, path[0]).value, path[1..]);
      vs := [value] + rest;
    } else {
      vs := [value];
    }
  }

  /** What is looked up is the end of the path, or says why it cannot be followed. */
  lemma {:induction false} WalkFollowsTrace(value: Variant, path: seq<Component>, vs: seq<Variant>)
    requires IsTrace(vs, value, path)
    ensures |vs| == |path| + 1 ==> Walk(value, path) == Found(vs[|path|])
    ensures |vs| <= |path| ==>
              var v, c := vs[|vs| - 1], path[|vs| - 1];
              && (IsMissingKey(v, c) ==> Walk(value, path) == MissingKey)
              && (IsOutOfRange(v, c) ==> Walk(value, path) == IndexOutOfRange)
              && (IsOfWrongType(v, c) ==> Walk(value, path) == WrongType)
    decreases |path|
  {
    if |vs| > 1 {
      var rest := vs[1..];
      assert LeadsTo(vs[0], path[0], vs[1]);
      assert forall i :: 0 <= i < |rest| - 1 ==> rest[i] == vs[i + 1] && path[1..][i] == path[i + 1];
      WalkFollowsTrace(vs[1], path[1..], rest);
    }
  }

  // ---- What the caller gets

  /** A value of an accepted type comes back as it is, a text is converted if need and possible, or else refused. */
  predicate IsAnswer(r: Outcome, value: Variant, request: Request) {
    match request.expected
    case Anything => r == Value(value)
    case Expected(accepts, convert) =>
      if accepts(value) then r == Value(value)
      else if value.Text? && convert(value.text).Some? then r == Value(convert(value.text).value)
      else IsRefusal(r, request)
  }

  predicate IsRefusal(r: Outcome, request: Request) {
    r == if request.raiseInvalidType then Raised(WrongTypeError) else Value(request.default)
  }

  predicate IsAbsence(r: Outcome, problem: Problem, request: Request) {
    r == if request.raiseMissing then Raised(problem) else Value(request.default)
  }

  /** Giving both a key and a path, or neither, is refused; an empty key counts as none. */
  lemma KeyOrPathIsRequired(store: Variant, key: Option<string>, path: seq<Component>, request: Request)
    requires (key.Some? && key.value != "") <==> path != []
    ensures Looked(store, key, path, request) == Raised(WrongTypeError)
  {
  }

  /**
   Otherwise the caller gets the value that the path leads to; what is missing is reported by an exception, or by the
   default, as requested, and so is a value that the path cannot lead through.
   */
  lemma LookedIsAnswer(store: Variant, key: Option<string>, path: seq<Component>, request: Request,
                       vs: seq<Variant>)
    requires !((key.Some? && key.value != "") <==> path != [])
    requires IsTrace(vs, store, if key.Some? then [Key(key.value)] else path)
    ensures var r, components := Looked(store, key, path, request), if key.Some? then [Key(key.value)] else path;
            && (|vs| == |components| + 1 ==> IsAnswer(r, vs[|components|], request))
            && (|vs| <= |components| ==>
                  var v, c := vs[|vs| - 1], components[|vs| - 1];
                  && (IsMissingKey(v, c) ==> IsAbsence(r, MissingKeyError, request))
                  && (IsOutOfRange(v, c) ==> IsAbsence(r, IndexRangeError, request))
                  && (IsOfWrongType(v, c) ==> IsRefusal(r, request)))
  {
    WalkFollowsTrace(store, if key.Some? then [Key(key.value)] else path, vs);
  }

  // ---- Over the files

  /** A path gives what searching the files in load order gives, or what is reported in place of it. */
  lemma PathIsLookedUpInFiles(layers: seq<Variant>, path: seq<Component>, request: Request)
    requires AllDicts(layers) && path != []
    ensures var r := Looked(MergeAll(layers), None, path, request);
            match Resolve(layers, path)
            case Layers(maps) => IsAnswer(r, MergeAll(maps), request)
            case Answer(Found(value)) => IsAnswer(r, value, request)
            case Answer(MissingKey) => IsAbsence(r, MissingKeyError, request)
            case Answer(IndexOutOfRange) => IsAbsence(r, IndexRangeError, request)
            case Answer(WrongType) => IsRefusal(r, request)
  {
    LookupSearchesFilesInOrder(layers, path);
  }

  /** The first file that holds a key, and not null. */
  predicate IsFirst(layers: seq<Variant>, key: string, i: nat)
    requires AllDicts(layers)
  {
    && i < |layers| && key in layers[i].entries && !layers[i].entries[key].Null?
    && forall j :: 0 <= j < i && key in layers[j].entries ==> layers[j].entries[key].Null?
  }

  lemma ValuesStep(layers: seq<Variant>, key: string)
    requires AllDicts(layers) && layers != []
    ensures key in layers[0].entries ==> Values(layers, key) == [layers[0].entries[key]] + Values(layers[1..], key)
    ensures key !in layers[0].entries ==> Values(layers, key) == Values(layers[1..], key)
  {
  }

  lemma {:induction false} NoValuesIff(layers: seq<Variant>, key: string)
    requires AllDicts(layers)
    ensures (forall j :: 0 <= j < |layers| ==> key !in layers[j].entries) <==> Values(layers, key) == []
    decreases |layers|
  {
    if layers != [] {
      NoValuesIff(layers[1..], key);
      ValuesStep(layers, key);
      assert forall j :: 0 < j < |layers| ==> layers[j] == layers[1..][j - 1];
    }
  }

  lemma FirstNonNullStep(v: Variant, values: seq<Variant>)
    ensures FirstNonNull([v] + values) == if v.Null? then FirstNonNull(values) else v
  {
    assert ([v] + values)[1..] == values;
  }

  lemma {:induction false} FirstValueIs(layers: seq<Variant>, key: string, i: nat)
    requires AllDicts(layers) && IsFirst(layers, key, i)
    ensures FirstNonNull(Values(layers, key)) == layers[i].entries[key]
    decreases |layers|
  {
    ValuesStep(layers, key);
    if key in layers[0].entries {
      FirstNonNullStep(layers[0].entries[key], Values(layers[1..], key));
    }
    if i > 0 {
      assert forall j :: 0 < j < |layers| ==> layers[j] == layers[1..][j - 1];
      FirstValueIs(layers[1..], key, i - 1);
    }
  }

  lemma {:induction false} OnlyNulls(layers: seq<Variant>, key: string)
    requires AllDicts(layers)
    requires forall j :: 0 <= j < |layers| && key in layers[j].entries ==> layers[j].entries[key].Null?
    ensures FirstNonNull(Values(layers, key)) == Null
    decreases |layers|
  {
    if layers != [] {
      OnlyNulls(layers[1..], key);
      ValuesStep(layers, key);
      if key in layers[0].entries {
        FirstNonNullStep(layers[0].entries[key], Values(layers[1..], key));
      }
    }
  }

  /**
   A key that no file holds is missing; a value that is no map comes from the first file that holds one; and null is
   found where nothing else is.
   */
  lemma KeyIsLookedUpInFiles(layers: seq<Variant>, key: string, request: Request, i: nat)
    requires AllDicts(layers) && key != ""
    ensures var r := Looked(MergeAll(layers), Some(key), [], request);
            && ((forall j :: 0 <= j < |layers| ==> key !in layers[j].entries) ==>
                  IsAbsence(r, MissingKeyError, request))
            && (IsFirst(layers, key, i) && !layers[i].entries[key].Dict? ==>
                  IsAnswer(r, layers[i].entries[key], request))
            && ((exists j :: 0 <= j < |layers| && key in layers[j].entries) &&
                (forall j :: 0 <= j < |layers| && key in layers[j].entries ==> layers[j].entries[key].Null?) ==>
                  IsAnswer(r, Null, request))
  {
    NoValuesIff(layers, key);
    if IsFirst(layers, key, i) {
      FirstValueIs(layers, key, i);
    } else if forall j :: 0 <= j < |layers| && key in layers[j].entries ==> layers[j].entries[key].Null? {
      OnlyNulls(layers, key);
    }
    KeyOfMerged(EMPTY, layers, key);
    FirstDecides(Values(layers, key));
    var merged := MergeAll(layers);
    if key in merged.entries {
      assert IsTrace([merged, merged.entries[key]], merged, [Key(key)]);
      LookedIsAnswer(merged, Some(key), [], request, [merged, merged.entries[key]]);
    } else {
      assert IsTrace([merged], merged, [Key(key)]);
      LookedIsAnswer(merged, Some(key), [], request, [merged]);
    }
  }
}
