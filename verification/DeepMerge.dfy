/**
 The recursive merge that configuration layers are combined with, and the order in which the user's
 spec is merged over the operator's defaults.
 */
module DeepMerge {
  import opened JsonTree
  import opened Wrappers

  /** Python's `==` identifies True, 1 and 1.0: two values are equal when their canonical forms are. */
  function Canon(j: Json): Json {
    match j
    case Bool(b) => Float(if b then 1.0 else 0.0)
    case Int(i) => Float(i as real)
    case List(items) => List(seq(|items|, k requires 0 <= k < |items| => Canon(items[k])))
    case Dict(entries) => Dict(map k | k in entries :: Canon(entries[k]))
    case _ => j
  }

  /** Equality as Python sees it: numbers by value, a bool being 0 or 1; text by its characters; lists
      and dicts by their parts; and nothing else is equal. */
  predicate PyEqual(a: Json, b: Json)
    decreases a
  {
    if IsNumber(a) || IsNumber(b) then IsNumber(a) && IsNumber(b) && Number(a) == Number(b)
    else match (a, b)
      case (Null, Null) => true
      case (Str(x), Str(y)) => x == y
      case (List(x), List(y)) => |x| == |y| && forall k :: 0 <= k < |x| ==> PyEqual(x[k], y[k])
      case (Dict(x), Dict(y)) => x.Keys == y.Keys && forall k :: k in x ==> PyEqual(x[k], y[k])
      case _ => false
  }

  predicate IsNumber(j: Json) {
    j.Bool? || j.Int? || j.Float?
  }

  function Number(j: Json): real
    requires IsNumber(j)
  {
    match j
    case Bool(b) => if b then 1.0 else 0.0
    case Int(i) => i as real
    case Float(f) => f
  }

  /** Canonical forms tell exactly what Python tells apart. */
  lemma {:induction false} CanonExactly(a: Json, b: Json)
    ensures Canon(a) == Canon(b) <==> PyEqual(a, b)
    decreases a
  {
    if a.List? && b.List? && |a.items| == |b.items| {
      forall k | 0 <= k < |a.items| ensures Canon(a.items[k]) == Canon(b.items[k]) <==> PyEqual(a.items[k], b.items[k]) {
        CanonExactly(a.items[k], b.items[k]);
      }
      assert forall k :: 0 <= k < |a.items| ==> Canon(a).items[k] == Canon(a.items[k]) && Canon(b).items[k] == Canon(b.items[k]);
    } else if a.Dict? && b.Dict? && a.entries.Keys == b.entries.Keys {
      forall k | k in a.entries ensures Canon(a.entries[k]) == Canon(b.entries[k]) <==> PyEqual(a.entries[k], b.entries[k]) {
        CanonExactly(a.entries[k], b.entries[k]);
      }
      assert forall k :: k in a.entries ==> Canon(a).entries[k] == Canon(a.entries[k]) && Canon(b).entries[k] == Canon(b.entries[k]);
      if forall k :: k in a.entries ==> Canon(a.entries[k]) == Canon(b.entries[k]) {
        assert Canon(a).entries == Canon(b).entries;
      }
    } else if a.Dict? && b.Dict? {
      assert Canon(a).entries.Keys == a.entries.Keys && Canon(b).entries.Keys == b.entries.Keys;
    } else if a.List? && b.List? {
      assert |Canon(a).items| == |a.items| && |Canon(b).items| == |b.items|;
    }
  }

  predicate In(e: Json, items: seq<Json>) {
    exists k :: 0 <= k < |items| && Canon(items[k]) == Canon(e)
  }

  predicate Scalar(j: Json) {
    !j.List? && !j.Dict?
  }

  /** Which scalar may replace which: the same type; bool is a subclass of int; and int and float are
      let through by the type conflict strategy.  A bool and a float conflict. */
  predicate Replaceable(a: Json, b: Json) {
    match a
    case Null => b.Null?
    case Str(_) => b.Str?
    case Bool(_) => b.Bool? || b.Int?
    case Int(_) => b.Bool? || b.Int? || b.Float?
    case Float(_) => b.Int? || b.Float?
    case _ => false
  }

  /** The list strategy: append what is not there yet. */
  function MergeItems(base: seq<Json>, nxt: seq<Json>): seq<Json> {
    if nxt == [] then base else
    var merged := MergeItems(base, nxt[..|nxt| - 1]);
    var el := nxt[|nxt| - 1];
    if In(el, merged) then merged else merged + [el]
  }

  /** None stands for InvalidMerge. */
  function Merge(a: Json, b: Json): Option<Json>
    decreases b
  {
    if a.List? && b.List? then Some(List(MergeItems(a.items, b.items)))
    else if a.Dict? && b.Dict? then
      if forall k :: k in a.entries && k in b.entries ==> Merge(a.entries[k], b.entries[k]).Some? then
        Some(Dict(map k | k in a.entries.Keys + b.entries.Keys ::
          if k !in b.entries then a.entries[k]
          else if k !in a.entries then b.entries[k]
          else Merge(a.entries[k], b.entries[k]).value))
      else None
    else if Replaceable(a, b) then Some(b)
    else None
  }

  // ---------------------------------------------------------------- the loops

  method MergeList(base: seq<Json>, nxt: seq<Json>) returns (merged: seq<Json>)
    ensures merged == MergeItems(base, nxt)
  {
    merged := base;
    for i := 0 to |nxt|
      invariant merged == MergeItems(base, nxt[..i])
    {
      assert nxt[..i + 1][..i] == nxt[..i];
      if !In(nxt[i], merged) {
        merged := merged + [nxt[i]];
      }
    }
    assert nxt[..|nxt|] == nxt;
  }

  method MergeValue(base: Json, nxt: Json) returns (r: Option<Json>)
    ensures r == Merge(base, nxt)
    decreases nxt, 1
  {
    if base.List? && nxt.List? {
      var items := MergeList(base.items, nxt.items);
      return Some(List(items));
    }
    if base.Dict? && nxt.Dict? {
      r := MergeDict(base, nxt);
      return;
    }
    return if Replaceable(base, nxt) then Some(nxt) else None;
  }

  /** Writes the entries of the later dict one by one into the earlier one. */
  method MergeDict(base: Json, nxt: Json) returns (r: Option<Json>)
    requires base.Dict? && nxt.Dict?
    ensures r == Merge(base, nxt)
    decreases nxt, 0
  {
    var out := base.entries;
    var todo := nxt.entries.Keys;
    while todo != {}
      invariant todo <= nxt.entries.Keys
      invariant out.Keys == base.entries.Keys + (nxt.entries.Keys - todo)
      invariant forall k :: k in base.entries && k in nxt.entries && k !in todo ==> Merge(base.entries[k], nxt.entries[k]).Some?
      invariant forall k :: k in out ==>
                  out[k] == (if k !in nxt.entries || k in todo then base.entries[k]
                             else if k !in base.entries then nxt.entries[k]
                             else Merge(base.entries[k], nxt.entries[k]).value)
      decreases todo
    {
      var k :| k in todo;
      if k !in out {
        out := out[k := nxt.entries[k]];
      } else {
        var merged := MergeValue(out[k], nxt.entries[k]);
        if merged.None? {
          return None;
        }
        out := out[k := merged.value];
      }
      todo := todo - {k};
    }
    r := Some(Dict(out));
    assert Merge(base, nxt).Some? && Merge(base, nxt).value.entries == out;
  }

  // ---------------------------------------------------------------- lists

  lemma InNone(e: Json)
    ensures !In(e, [])
  {
  }

  lemma InSnoc(e: Json, items: seq<Json>, el: Json)
    ensures In(e, items + [el]) <==> In(e, items) || Canon(el) == Canon(e)
  {
    hide Canon;
    var more := items + [el];
    assert more[|items|] == el && forall k :: 0 <= k < |items| ==> more[k] == items[k];
  }

  lemma InSame(x: Json, y: Json, items: seq<Json>)
    requires Canon(x) == Canon(y)
    ensures In(x, items) <==> In(y, items)
  {
    hide Canon;
  }

  lemma {:induction false} MergeItemsMembers(base: seq<Json>, nxt: seq<Json>, e: Json)
    ensures In(e, MergeItems(base, nxt)) <==> In(e, base) || In(e, nxt)
  {
    hide In, Canon;
    if nxt == [] {
      InNone(e);
    } else {
      var init, el := nxt[..|nxt| - 1], nxt[|nxt| - 1];
      MergeItemsMembers(base, init, e);
      assert nxt == init + [el];
      InSnoc(e, init, el);
      InSnoc(e, MergeItems(base, init), el);
      if In(el, MergeItems(base, init)) && Canon(el) == Canon(e) {
        InSame(el, e, MergeItems(base, init));
      }
    }
  }

  /** The base list is kept as it is, and what is appended is new, comes from the later list, and is
      appended once. */
  lemma {:induction false} MergeItemsAppends(base: seq<Json>, nxt: seq<Json>)
    ensures base <= MergeItems(base, nxt)
    ensures forall k :: |base| <= k < |MergeItems(base, nxt)| ==>
              MergeItems(base, nxt)[k] in nxt && !In(MergeItems(base, nxt)[k], MergeItems(base, nxt)[..k])
  {
    if nxt != [] {
      var init, el := nxt[..|nxt| - 1], nxt[|nxt| - 1];
      MergeItemsAppends(base, init);
      var merged := MergeItems(base, init);
      if !In(el, merged) {
        assert (merged + [el])[..|merged|] == merged;
        forall k | |base| <= k < |merged| ensures (merged + [el])[..k] == merged[..k] {}
      }
    }
  }

  /** The elements of the later list are looked at in their order. */
  lemma {:induction false} MergeItemsInOrder(base: seq<Json>, nxt: seq<Json>, k: nat)
    requires k <= |nxt|
    ensures MergeItems(base, nxt[..k]) <= MergeItems(base, nxt)
  {
    hide In;
    if k == |nxt| {
      assert nxt[..k] == nxt;
    } else {
      var init := nxt[..|nxt| - 1];
      assert init[..k] == nxt[..k];
      MergeItemsInOrder(base, init, k);
    }
  }

  lemma {:induction false} MergeItemsNothingNew(base: seq<Json>, nxt: seq<Json>)
    requires forall k :: 0 <= k < |nxt| ==> In(nxt[k], base)
    ensures MergeItems(base, nxt) == base
  {
    if nxt != [] {
      MergeItemsNothingNew(base, nxt[..|nxt| - 1]);
      assert In(nxt[|nxt| - 1], base);
    }
  }

  lemma {:induction false} MergeItemsAssociative(a: seq<Json>, b: seq<Json>, c: seq<Json>)
    ensures MergeItems(MergeItems(a, b), c) == MergeItems(a, MergeItems(b, c))
  {
    if c != [] {
      var init, el := c[..|c| - 1], c[|c| - 1];
      MergeItemsAssociative(a, b, init);
      var bc := MergeItems(b, init);
      MergeItemsMembers(a, bc, el);
      if !In(el, bc) {
        assert (bc + [el])[..|bc|] == bc;
      }
    }
  }

  // ---------------------------------------------------------------- laws

  lemma InSelf(items: seq<Json>)
    ensures forall k :: 0 <= k < |items| ==> In(items[k], items)
  {
  }

  /** merge(a, a) == a */
  lemma {:induction false} Idempotent(a: Json)
    ensures Merge(a, a) == Some(a)
  {
    match a
    case List(items) =>
      InSelf(items);
      MergeItemsNothingNew(items, items);
    case Dict(entries) =>
      forall k | k in entries ensures Merge(entries[k], entries[k]) == Some(entries[k]) {
        Idempotent(entries[k]);
      }
      assert Merge(a, a).value.entries == entries;
    case _ =>
  }

  /** merge(merge(a, b), b) == merge(a, b) */
  lemma {:induction false} Absorbing(a: Json, b: Json)
    requires Merge(a, b).Some?
    ensures Merge(Merge(a, b).value, b) == Merge(a, b)
    decreases b
  {
    var m := Merge(a, b).value;
    if a.List? {
      forall k | 0 <= k < |b.items| ensures In(b.items[k], m.items) {
        InSelf(b.items);
        MergeItemsMembers(a.items, b.items, b.items[k]);
      }
      MergeItemsNothingNew(m.items, b.items);
    } else if a.Dict? {
      forall k | k in b.entries ensures Merge(m.entries[k], b.entries[k]) == Some(m.entries[k]) {
        if k in a.entries {
          Absorbing(a.entries[k], b.entries[k]);
        } else {
          Idempotent(b.entries[k]);
        }
      }
      assert m.entries.Keys == m.entries.Keys + b.entries.Keys;
      assert Merge(m, b).value.entries == m.entries;
    }
  }

  /** Both groupings of a three-way merge succeed exactly when the inputs are mergeable pairwise; then
      they agree. */
  lemma {:induction false} Associative(a: Json, b: Json, c: Json)
    ensures Merge(a, b).Some? && Merge(b, c).Some? && Merge(Merge(a, b).value, c).Some? && Merge(a, Merge(b, c).value).Some?
            <==> Merge(a, b).Some? && Merge(b, c).Some? && Merge(a, c).Some?
    ensures Merge(a, b).Some? && Merge(b, c).Some? && Merge(a, c).Some? ==>
              Merge(Merge(a, b).value, c) == Merge(a, Merge(b, c).value)
    decreases c
  {
    if a.List? && b.List? && c.List? {
      MergeItemsAssociative(a.items, b.items, c.items);
    } else if a.Dict? && b.Dict? && c.Dict? && Merge(a, b).Some? && Merge(b, c).Some? {
      AssociativeDict(a, b, c);
    }
  }

  lemma {:induction false} AssociativeDict(a: Json, b: Json, c: Json)
    requires a.Dict? && b.Dict? && c.Dict? && Merge(a, b).Some? && Merge(b, c).Some?
    ensures Merge(Merge(a, b).value, c).Some? && Merge(a, Merge(b, c).value).Some? <==> Merge(a, c).Some?
    ensures Merge(a, c).Some? ==> Merge(Merge(a, b).value, c) == Merge(a, Merge(b, c).value)
    decreases c, 0
  {
    var (x, y, z) := (a.entries, b.entries, c.entries);
    var ab, bc := Merge(a, b).value, Merge(b, c).value;
    forall k | k in x && k in y && k in z
      ensures Merge(ab.entries[k], z[k]).Some? && Merge(x[k], bc.entries[k]).Some? <==> Merge(x[k], z[k]).Some?
      ensures Merge(x[k], z[k]).Some? ==> Merge(ab.entries[k], z[k]) == Merge(x[k], bc.entries[k])
    {
      Associative(x[k], y[k], z[k]);
    }
    AssociativeEntries(a, b, c, ab, bc);
  }

  lemma {:induction false} AssociativeEntries(a: Json, b: Json, c: Json, ab: Json, bc: Json)
    requires a.Dict? && b.Dict? && c.Dict? && Merge(a, b) == Some(ab) && Merge(b, c) == Some(bc) && ab.Dict? && bc.Dict?
    requires forall k :: k in a.entries && k in b.entries && k in c.entries ==>
               && (Merge(ab.entries[k], c.entries[k]).Some? && Merge(a.entries[k], bc.entries[k]).Some? <==> Merge(a.entries[k], c.entries[k]).Some?)
               && (Merge(a.entries[k], c.entries[k]).Some? ==> Merge(ab.entries[k], c.entries[k]) == Merge(a.entries[k], bc.entries[k]))
    ensures Merge(ab, c).Some? && Merge(a, bc).Some? <==> Merge(a, c).Some?
    ensures Merge(a, c).Some? ==> Merge(ab, c) == Merge(a, bc)
  {
    assert forall k :: k in a.entries && k !in b.entries ==> ab.entries[k] == a.entries[k];
    assert forall k :: k in c.entries && k !in b.entries ==> bc.entries[k] == c.entries[k];
    if Merge(a, c).Some? {
      assert Merge(ab, c).Some? by {
        forall k | k in ab.entries && k in c.entries ensures Merge(ab.entries[k], c.entries[k]).Some? {
          assert k in b.entries && k !in a.entries ==> ab.entries[k] == b.entries[k];
        }
      }
      assert Merge(a, bc).Some? by {
        forall k | k in a.entries && k in bc.entries ensures Merge(a.entries[k], bc.entries[k]).Some? {
          assert k in b.entries && k !in c.entries ==> bc.entries[k] == b.entries[k];
        }
      }
      assert Merge(ab, c).value.entries == Merge(a, bc).value.entries;
    }
  }

  /** One grouping may fail where the other succeeds: a bool, an int and a float are not mergeable
      pairwise, in either order of the two groupings. */
  lemma GroupingsDiffer()
    ensures var (t, i, f) := (Bool(true), Int(1), Float(2.5));
            && Merge(Merge(t, i).value, f) == Some(f) && Merge(t, Merge(i, f).value).None?
            && Merge(t, Merge(f, i).value) == Some(i) && Merge(t, f).None?
  {
  }

  /** What the merged tree holds under any path, from what the inputs hold under it. */
  lemma {:induction false} MergeAt(a: Json, b: Json, path: seq<string>)
    requires Merge(a, b).Some?
    ensures var m := At(Merge(a, b).value, path);
            match (At(a, path), At(b, path))
            case (None, None) => m == None
            case (Some(x), None) => m == Some(x)
            case (None, Some(y)) => m == Some(y)
            case (Some(x), Some(y)) => Merge(x, y).Some? && m == Merge(x, y)
    decreases |path|
  {
    if path != [] && a.Dict? {
      var k := path[0];
      if k in a.entries && k in b.entries {
        MergeAt(a.entries[k], b.entries[k], path[1..]);
      }
    }
  }

  /** What kinds of scalars may replace each other: the same; a bool and an int; an int and a float. */
  lemma ReplaceableExactly(a: Json, b: Json)
    ensures Replaceable(a, b) <==>
            || (a.Null? && b.Null?) || (a.Str? && b.Str?)
            || (IsNumber(a) && IsNumber(b) && !(a.Bool? && b.Float?) && !(a.Float? && b.Bool?))
  {
  }

  /** What merging two values needs besides the values below them. */
  predicate SameShape(a: Json, b: Json) {
    (a.List? && b.List?) || (a.Dict? && b.Dict?) || Replaceable(a, b)
  }

  /** A merge succeeds exactly when the inputs have values of fitting types wherever both have one. */
  lemma {:induction false} MergeDefined(a: Json, b: Json)
    ensures Merge(a, b).Some? <==>
            forall path {:trigger At(a, path)} :: At(a, path).Some? && At(b, path).Some? ==> SameShape(At(a, path).value, At(b, path).value)
    decreases b
  {
    if Merge(a, b).Some? {
      forall path | At(a, path).Some? && At(b, path).Some? ensures SameShape(At(a, path).value, At(b, path).value) {
        MergeAt(a, b, path);
      }
    } else {
      var bad := Conflict(a, b);
    }
  }

  lemma {:induction false} Conflict(a: Json, b: Json) returns (path: seq<string>)
    requires Merge(a, b).None?
    ensures At(a, path).Some? && At(b, path).Some? && !SameShape(At(a, path).value, At(b, path).value)
    decreases b
  {
    path := [];
    if a.Dict? && b.Dict? {
      var k :| k in a.entries && k in b.entries && Merge(a.entries[k], b.entries[k]).None?;
      var below := Conflict(a.entries[k], b.entries[k]);
      path := [k] + below;
      assert path[1..] == below;
    }
  }

  // ---------------------------------------------------------------- configuration layers

  /** The layers merged over the base one after another. */
  function MergeAll(base: Json, layers: seq<Json>): Option<Json> {
    if layers == [] then Some(base) else
    match MergeAll(base, layers[..|layers| - 1])
    case None => None
    case Some(m) => Merge(m, layers[|layers| - 1])
  }

  /** The last layer that defines a path as a scalar decides it. */
  lemma {:induction false} LastLayerWins(base: Json, layers: seq<Json>, i: nat, path: seq<string>)
    requires MergeAll(base, layers).Some? && i < |layers|
    requires At(layers[i], path).Some? && Scalar(At(layers[i], path).value)
    requires forall j :: i < j < |layers| ==> At(layers[j], path).None?
    ensures At(MergeAll(base, layers).value, path) == At(layers[i], path)
  {
    var last := |layers| - 1;
    MergeAt(MergeAll(base, layers[..last]).value, layers[last], path);
    if i < last {
      LastLayerWins(base, layers[..last], i, path);
    }
  }

  /** A path that no layer defines is as the base has it. */
  lemma {:induction false} UndefinedLayersKeepBase(base: Json, layers: seq<Json>, path: seq<string>)
    requires MergeAll(base, layers).Some?
    requires forall j :: 0 <= j < |layers| ==> At(layers[j], path).None?
    ensures At(MergeAll(base, layers).value, path) == At(base, path)
  {
    if layers != [] {
      var last := |layers| - 1;
      MergeAt(MergeAll(base, layers[..last]).value, layers[last], path);
      UndefinedLayersKeepBase(base, layers[..last], path);
    }
  }

  /** A layer only ever adds paths. */
  lemma {:induction false} PathsGrow(base: Json, layers: seq<Json>, path: seq<string>)
    requires MergeAll(base, layers).Some?
    ensures At(MergeAll(base, layers).value, path).Some? <==>
            At(base, path).Some? || exists j :: 0 <= j < |layers| && At(layers[j], path).Some?
  {
    if layers != [] {
      var last := |layers| - 1;
      MergeAt(MergeAll(base, layers[..last]).value, layers[last], path);
      PathsGrow(base, layers[..last], path);
      assert forall j :: 0 <= j < last ==> layers[..last][j] == layers[j];
    }
  }

  /** Where the user gives a list, the defaults' list stays in front of it. */
  lemma UserListExtends(base: Json, layers: seq<Json>, path: seq<string>)
    requires layers != [] && MergeAll(base, layers).Some?
    requires var last := |layers| - 1;
             var below := At(MergeAll(base, layers[..last]).value, path);
             below.Some? && below.value.List? && At(layers[last], path).Some?
    ensures var last := |layers| - 1;
            var below, m := At(MergeAll(base, layers[..last]).value, path), At(MergeAll(base, layers).value, path);
            && m.Some? && m.value.List? && At(layers[last], path).value.List?
            && below.value.items <= m.value.items
            && forall e :: In(e, m.value.items) <==> In(e, below.value.items) || In(e, At(layers[last], path).value.items)
  {
    var last := |layers| - 1;
    var m := MergeAll(base, layers[..last]).value;
    MergeAt(m, layers[last], path);
    var x, y := At(m, path).value, At(layers[last], path).value;
    MergeItemsAppends(x.items, y.items);
    forall e ensures In(e, MergeItems(x.items, y.items)) <==> In(e, x.items) || In(e, y.items) {
      MergeItemsMembers(x.items, y.items, e);
    }
  }

  /** The base of merge_spec: the preset with its artifacts replaced. */
  function WithArtifacts(preset: map<string, Json>, binaryUrl: string, imagesUrl: string): Json {
    Dict(preset["artifacts" := Dict(map["binary_base_url" := Str(binaryUrl), "images_base_url" := Str(imagesUrl)])])
  }

  function Layers(size: Json, iam: Option<Json>, spec: Json): seq<Json> {
    [size] + (if iam.Some? then [iam.value] else []) + [spec]
  }

  /** Preset, then size, then IAM data when enabled, then the user's spec. */
  method MergeSpec(preset: map<string, Json>, binaryUrl: string, imagesUrl: string, size: Json, iam: Option<Json>, spec: Json)
    returns (r: Option<Json>)
    ensures r == MergeAll(WithArtifacts(preset, binaryUrl, imagesUrl), Layers(size, iam, spec))
  {
    var base := WithArtifacts(preset, binaryUrl, imagesUrl);
    r := MergeValue(base, size);
    ghost var done := [size];
    assert done[..0] == [] && MergeAll(base, done) == r;
    if r.None? {
      MergeAllFails(base, done, Layers(size, iam, spec)[1..]);
      assert done + Layers(size, iam, spec)[1..] == Layers(size, iam, spec);
      return;
    }
    if iam.Some? {
      r := MergeValue(r.value, iam.value);
      assert (done + [iam.value])[..1] == done;
      done := done + [iam.value];
      assert MergeAll(base, done) == r;
      if r.None? {
        MergeAllFails(base, done, [spec]);
        return;
      }
    }
    r := MergeValue(r.value, spec);
    assert (done + [spec])[..|done|] == done && done + [spec] == Layers(size, iam, spec);
  }

  lemma {:induction false} MergeAllFails(base: Json, done: seq<Json>, more: seq<Json>)
    requires MergeAll(base, done).None?
    ensures MergeAll(base, done + more).None?
  {
    if more == [] {
      assert done + more == done;
    } else {
      var last := |more| - 1;
      assert (done + more)[..|done + more| - 1] == done + more[..last];
      MergeAllFails(base, done, more[..last]);
    }
  }

  /** Every scalar the user sets is in the merged spec as the user set it. */
  lemma UserScalarWins(preset: map<string, Json>, binaryUrl: string, imagesUrl: string, size: Json, iam: Option<Json>, spec: Json, path: seq<string>)
    requires var r := MergeAll(WithArtifacts(preset, binaryUrl, imagesUrl), Layers(size, iam, spec)); r.Some?
    requires At(spec, path).Some? && Scalar(At(spec, path).value)
    ensures At(MergeAll(WithArtifacts(preset, binaryUrl, imagesUrl), Layers(size, iam, spec)).value, path) == At(spec, path)
  {
    LastLayerWins(WithArtifacts(preset, binaryUrl, imagesUrl), Layers(size, iam, spec), |Layers(size, iam, spec)| - 1, path);
  }

  /** Of the preset, all but its artifacts is the base of the spec: a path that no layer defines is as the
      preset has it. */
  lemma PresetKept(preset: map<string, Json>, binaryUrl: string, imagesUrl: string, size: Json, iam: Option<Json>, spec: Json, path: seq<string>)
    requires var r := MergeAll(WithArtifacts(preset, binaryUrl, imagesUrl), Layers(size, iam, spec)); r.Some?
    requires path != [] && path[0] != "artifacts"
    requires At(size, path).None? && (iam.Some? ==> At(iam.value, path).None?) && At(spec, path).None?
    ensures At(MergeAll(WithArtifacts(preset, binaryUrl, imagesUrl), Layers(size, iam, spec)).value, path) == At(Dict(preset), path)
  {
    UndefinedLayersKeepBase(WithArtifacts(preset, binaryUrl, imagesUrl), Layers(size, iam, spec), path);
  }

  /** A scalar of the IAM data stays unless the user defines its path. */
  lemma IamScalarWins(preset: map<string, Json>, binaryUrl: string, imagesUrl: string, size: Json, iam: Json, spec: Json, path: seq<string>)
    requires var r := MergeAll(WithArtifacts(preset, binaryUrl, imagesUrl), Layers(size, Some(iam), spec)); r.Some?
    requires At(iam, path).Some? && Scalar(At(iam, path).value) && At(spec, path).None?
    ensures At(MergeAll(WithArtifacts(preset, binaryUrl, imagesUrl), Layers(size, Some(iam), spec)).value, path) == At(iam, path)
  {
    assert Layers(size, Some(iam), spec) == [size, iam, spec];
    LastLayerWins(WithArtifacts(preset, binaryUrl, imagesUrl), [size, iam, spec], 1, path);
  }

  /** A scalar of the size stays unless the IAM data or the user define its path. */
  lemma SizeScalarWins(preset: map<string, Json>, binaryUrl: string, imagesUrl: string, size: Json, iam: Option<Json>, spec: Json, path: seq<string>)
    requires var r := MergeAll(WithArtifacts(preset, binaryUrl, imagesUrl), Layers(size, iam, spec)); r.Some?
    requires At(size, path).Some? && Scalar(At(size, path).value)
    requires (iam.Some? ==> At(iam.value, path).None?) && At(spec, path).None?
    ensures At(MergeAll(WithArtifacts(preset, binaryUrl, imagesUrl), Layers(size, iam, spec)).value, path) == At(size, path)
  {
    LastLayerWins(WithArtifacts(preset, binaryUrl, imagesUrl), Layers(size, iam, spec), 0, path);
  }

  /** Of the artifacts, where no layer sets them, the two URLs are the controller's, and there is nothing
      else, whatever the preset says. */
  lemma ArtifactsFromController(preset: map<string, Json>, binaryUrl: string, imagesUrl: string, size: Json, iam: Option<Json>, spec: Json, key: string)
    requires var r := MergeAll(WithArtifacts(preset, binaryUrl, imagesUrl), Layers(size, iam, spec)); r.Some?
    requires var path := ["artifacts", key]; At(size, path).None? && (iam.Some? ==> At(iam.value, path).None?) && At(spec, path).None?
    ensures At(MergeAll(WithArtifacts(preset, binaryUrl, imagesUrl), Layers(size, iam, spec)).value, ["artifacts", key]) ==
            if key == "binary_base_url" then Some(Str(binaryUrl))
            else if key == "images_base_url" then Some(Str(imagesUrl))
            else None
  {
    var base := WithArtifacts(preset, binaryUrl, imagesUrl);
    var path := ["artifacts", key];
    UndefinedLayersKeepBase(base, Layers(size, iam, spec), path);
    hide MergeAll;
    var artifacts := base.entries["artifacts"];
    assert path[1..] == [key] && [key][1..] == [];
    assert At(base, path) == At(artifacts, [key]);
    if key in artifacts.entries {
      assert At(artifacts, [key]) == At(artifacts.entries[key], []) == Some(artifacts.entries[key]);
    }
  }
}
