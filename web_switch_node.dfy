/** The route helpers of the editor's switch node: where its output
    handles sit, and which routes it shows, read from the node's stored
    parameters (apps/web/src/components/switch-node.tsx). */
module WebSwitchNode {
  import opened Wrappers
  import opened JsText
  import opened JsValues

  datatype SwitchRoute = SwitchRoute(id: string, labelText: string)

  /** `DEFAULT_SWITCH_ROUTES`. */
  function DefaultRoutes(): seq<SwitchRoute> {
    [SwitchRoute("match", "Match"), SwitchRoute("default", "Default")]
  }

  /** The default spacing between two handles, in pixels. */
  const DefaultGap: real := 15.0

  /** `computeHandleOffset(index, total, gap)`: a lone handle sits in the
      middle; several are spread `gap` apart around the middle. */
  function ComputeHandleOffset(index: int, total: int, gap: real): (offset: real)
    ensures total <= 1 ==> offset == 0.0
  {
    if total <= 1 then 0.0
    else
      var midpoint := (total - 1) as real / 2.0;
      (index as real - midpoint) * gap
  }

  /** The handles are placed symmetrically about the middle, consecutive
      handles are exactly `gap` apart, and with an odd count the middle
      handle sits at offset 0. */
  lemma HandleOffsetLayout(index: int, total: int, gap: real)
    requires total > 1
    ensures ComputeHandleOffset(index, total, gap) == -ComputeHandleOffset(total - 1 - index, total, gap)
    ensures ComputeHandleOffset(index + 1, total, gap) - ComputeHandleOffset(index, total, gap) == gap
    ensures total % 2 == 1 ==> ComputeHandleOffset((total - 1) / 2, total, gap) == 0.0
  {
    var midpoint := (total - 1) as real / 2.0;
    assert (total - 1 - index) as real - midpoint == -(index as real - midpoint);
    assert (index + 1) as real - midpoint == (index as real - midpoint) + 1.0;
    if total % 2 == 1 {
      assert ((total - 1) / 2) as real == midpoint;
    }
  }

  /** `ensureRoutes(routes)`: the routes the node's data holds, unless
      there are none. */
  function EnsureRoutes(routes: Option<seq<SwitchRoute>>): (r: seq<SwitchRoute>)
    ensures |r| > 0
    ensures routes.Some? && |routes.value| > 0 ==> r == routes.value
    ensures routes.None? || routes.value == [] ==> r == DefaultRoutes()
  {
    if routes.Some? && |routes.value| > 0 then routes.value else DefaultRoutes()
  }

  /** `normalizeRouteLabel(raw, fallback)`: an empty label gives way to the
      fallback. */
  function NormalizeRouteLabel(raw: string, fallback: string): (routeLabel: string)
    ensures |raw| > 0 ==> routeLabel == raw
    ensures raw == [] ==> routeLabel == fallback
  {
    if |raw| > 0 then raw else fallback
  }

  /** Normalizing a label twice changes nothing, and a non-empty fallback
      never yields an empty label. */
  lemma NormalizeRouteLabelSettles(raw: string, fallback: string)
    ensures NormalizeRouteLabel(NormalizeRouteLabel(raw, fallback), fallback) == NormalizeRouteLabel(raw, fallback)
    ensures |fallback| > 0 ==> |NormalizeRouteLabel(raw, fallback)| > 0
  {
  }

  /** `candidate[key]` when it is a string. Arrays have no `id`, `label`
      or `name` property, nor does `Object.prototype`. */
  function StringProperty(candidate: Value, key: string): (r: Option<string>)
    ensures r.Some? <==> candidate.Obj? && Get(candidate.fields, key).Str?
  {
    if candidate.Obj? && Get(candidate.fields, key).Str? then Some(Get(candidate.fields, key).s) else None
  }

  /** The id given to an object entry without a string `id`: its position
      in the input, counted from 1. */
  function GeneratedId(index: nat): string {
    "route-" + NatToDecimal(index + 1)
  }

  /** The route one entry of the input array gives at position `index`: a
      string names both id and label; a truthy object (an array included)
      takes its string `id`, or a generated one, and its string `label`,
      else its string `name`, else the id; anything else is skipped. */
  function RouteOfEntry(raw: Value, index: nat): (route: Option<SwitchRoute>)
    ensures route.Some? <==> Accepted(raw)
    ensures raw.Str? ==> route == Some(SwitchRoute(raw.s, raw.s))
  {
    if raw.Str? then Some(SwitchRoute(raw.s, raw.s))
    else if raw.Obj? || raw.Arr? then
      var id := match StringProperty(raw, "id") case Some(s) => s case None => GeneratedId(index);
      var routeLabel :=
        match StringProperty(raw, "label")
        case Some(s) => s
        case None => match StringProperty(raw, "name") case Some(s) => s case None => id;
      Some(SwitchRoute(id, routeLabel))
    else None
  }

  /** The routes the `forEach` pushes for the given entries, in order. */
  function CollectRoutes(items: seq<Value>): (routes: seq<SwitchRoute>)
    ensures |routes| <= |items|
    decreases |items|
  {
    if items == [] then []
    else
      var n := |items| - 1;
      CollectRoutes(items[..n]) + match RouteOfEntry(items[n], n) case Some(r) => [r] case None => []
  }

  /** `normalizeSwitchRoutes(routes)`: what the function returns. */
  function NormalizedRoutes(routes: Value): (r: seq<SwitchRoute>)
    ensures |r| > 0
    ensures !routes.Arr? ==> r == DefaultRoutes()
  {
    if !routes.Arr? then DefaultRoutes()
    else
      var collected := CollectRoutes(routes.items);
      if |collected| > 0 then collected else DefaultRoutes()
  }

  /** `normalizeSwitchRoutes(routes)`: the entries are visited in order and
      every accepted one is pushed; an empty result falls back to the
      defaults. */
  method NormalizeSwitchRoutes(routes: Value) returns (normalized: seq<SwitchRoute>)
    ensures normalized == NormalizedRoutes(routes)
  {
    if !routes.Arr? {
      return DefaultRoutes();
    }
    var items := routes.items;
    normalized := [];
    var index := 0;
    while index < |items|
      invariant 0 <= index <= |items|
      invariant normalized == CollectRoutes(items[..index])
    {
      var route := RouteOfEntry(items[index], index);
      if route.Some? {
        normalized := normalized + [route.value];
      }
      assert items[..index + 1][..index] == items[..index];
      index := index + 1;
    }
    assert items[..|items|] == items;
    if |normalized| == 0 {
      normalized := DefaultRoutes();
    }
  }

  /** The entries `normalizeSwitchRoutes` keeps: strings and truthy
      objects. */
  predicate Accepted(raw: Value) {
    raw.Str? || raw.Obj? || raw.Arr?
  }

  /** The collected routes are empty exactly when no entry is accepted. */
  lemma {:induction false} CollectRoutesEmpty(items: seq<Value>)
    ensures CollectRoutes(items) == [] <==> forall i :: 0 <= i < |items| ==> !Accepted(items[i])
    decreases |items|
  {
    if items != [] {
      var n := |items| - 1;
      var init := items[..n];
      CollectRoutesEmpty(init);
      forall i | 0 <= i < n
        ensures init[i] == items[i]
      {
      }
      var tail := match RouteOfEntry(items[n], n) case Some(r) => [r] case None => [];
      assert CollectRoutes(items) == CollectRoutes(init) + tail;
      assert tail == [] <==> !Accepted(items[n]);
    }
  }

  /** Every collected route comes from an accepted entry, and every
      accepted entry contributes its route. */
  lemma {:induction false} CollectRoutesOrigin(items: seq<Value>)
    ensures forall r :: r in CollectRoutes(items) ==> exists i :: 0 <= i < |items| && RouteOfEntry(items[i], i) == Some(r)
    ensures forall i :: 0 <= i < |items| && Accepted(items[i]) ==> RouteOfEntry(items[i], i).value in CollectRoutes(items)
    decreases |items|
  {
    if items != [] {
      var n := |items| - 1;
      var init := items[..n];
      CollectRoutesOrigin(init);
      var tail := match RouteOfEntry(items[n], n) case Some(r) => [r] case None => [];
      var routes := CollectRoutes(items);
      assert routes == CollectRoutes(init) + tail;
      forall r | r in routes
        ensures exists i :: 0 <= i < |items| && RouteOfEntry(items[i], i) == Some(r)
      {
        if r in CollectRoutes(init) {
          var i :| 0 <= i < |init| && RouteOfEntry(init[i], i) == Some(r);
          assert init[i] == items[i];
        } else {
          assert r in tail;
          assert RouteOfEntry(items[n], n) == Some(r);
        }
      }
      forall i | 0 <= i < |items| && Accepted(items[i])
        ensures RouteOfEntry(items[i], i).value in routes
      {
        if i < n {
          assert init[i] == items[i];
          assert RouteOfEntry(init[i], i).value in CollectRoutes(init);
        } else {
          assert tail == [RouteOfEntry(items[n], n).value];
        }
      }
    }
  }

  /** An array of strings becomes one route per string, id and label both
      the string. */
  lemma {:induction false} StringRoutes(names: seq<string>)
    ensures CollectRoutes(seq(|names|, i requires 0 <= i < |names| => Str(names[i])))
      == seq(|names|, i requires 0 <= i < |names| => SwitchRoute(names[i], names[i]))
    decreases |names|
  {
    if names != [] {
      var n := |names| - 1;
      var items := seq(|names|, i requires 0 <= i < |names| => Str(names[i]));
      StringRoutes(names[..n]);
      assert items[..n] == seq(n, i requires 0 <= i < n => Str(names[..n][i]));
    }
  }

  /** A route written back as `{id, label}`. */
  function RouteValue(route: SwitchRoute): Value {
    Obj(map["id" := Str(route.id), "label" := Str(route.labelText)])
  }

  function RoutesValue(routes: seq<SwitchRoute>): (v: Value)
    ensures v.Arr? && |v.items| == |routes|
    ensures forall i :: 0 <= i < |routes| ==> v.items[i] == RouteValue(routes[i])
  {
    Arr(seq(|routes|, i requires 0 <= i < |routes| => RouteValue(routes[i])))
  }

  /** Routes written back as `{id, label}` objects are read back unchanged. */
  lemma {:induction false} CollectWrittenRoutes(routes: seq<SwitchRoute>)
    ensures CollectRoutes(RoutesValue(routes).items) == routes
    decreases |routes|
  {
    if routes != [] {
      var n := |routes| - 1;
      var items := RoutesValue(routes).items;
      CollectWrittenRoutes(routes[..n]);
      assert items[..n] == RoutesValue(routes[..n]).items;
      var last := RouteValue(routes[n]);
      assert StringProperty(last, "id") == Some(routes[n].id);
      assert StringProperty(last, "label") == Some(routes[n].labelText);
      assert RouteOfEntry(items[n], n) == Some(routes[n]);
      assert routes == routes[..n] + [routes[n]];
    }
  }

  /** Normalizing is idempotent: the normalized routes, stored as
      `{id, label}` objects, normalize to themselves. */
  lemma NormalizeRoundTrip(routes: Value)
    ensures NormalizedRoutes(RoutesValue(NormalizedRoutes(routes))) == NormalizedRoutes(routes)
  {
    CollectWrittenRoutes(NormalizedRoutes(routes));
  }

  /** `ensureRoutes` keeps any normalized route list as it is. */
  lemma EnsureNormalized(routes: Value)
    ensures EnsureRoutes(Some(NormalizedRoutes(routes))) == NormalizedRoutes(routes)
  {
  }

  /** Generated ids of different positions differ. */
  lemma GeneratedIdsDistinct(i: nat, j: nat)
    requires i != j
    ensures GeneratedId(i) != GeneratedId(j)
  {
    if GeneratedId(i) == GeneratedId(j) {
      assert GeneratedId(i)[6..] == NatToDecimal(i + 1);
      assert GeneratedId(j)[6..] == NatToDecimal(j + 1);
      NatToDecimalInjective(i + 1, j + 1);
    }
  }

  /** A skipped entry still takes up a position: in `[null, {}]` the object
      is entry 2, so its route is "route-2". */
  lemma SkippedEntryKeepsPosition()
    ensures NormalizedRoutes(Arr([Null, Obj(map[])])) == [SwitchRoute("route-2", "route-2")]
  {
    var items := [Null, Obj(map[])];
    assert items[..1] == [Null];
    assert [Null][..0] == [];
    assert NatToDecimal(2) == "2";
    assert GeneratedId(1) == "route-2";
    assert StringProperty(items[1], "id").None? && StringProperty(items[1], "label").None? && StringProperty(items[1], "name").None?;
    assert RouteOfEntry(items[1], 1) == Some(SwitchRoute("route-2", "route-2"));
  }

  /** `deriveSwitchRoutesFromParameters(parameters)`: no parameters give
      the defaults; otherwise the first of `routes`, `conditions`, `cases`
      the parameters hold is normalized, whatever its value. */
  function DeriveSwitchRoutesFromParameters(parameters: Option<map<string, Value>>): (r: seq<SwitchRoute>)
    ensures |r| > 0
  {
    match parameters
    case None => DefaultRoutes()
    case Some(fields) =>
      if "routes" in fields then NormalizedRoutes(fields["routes"])
      else if "conditions" in fields then NormalizedRoutes(fields["conditions"])
      else if "cases" in fields then NormalizedRoutes(fields["cases"])
      else DefaultRoutes()
  }

  /** The first key present decides, even when its value is not an array
      and a later key holds usable routes. */
  lemma DerivePrecedence(fields: map<string, Value>, names: seq<string>)
    requires "routes" in fields && !fields["routes"].Arr?
    requires names != []
    ensures DeriveSwitchRoutesFromParameters(Some(fields["conditions" := Arr(seq(|names|, i requires 0 <= i < |names| => Str(names[i])))]))
      == DefaultRoutes()
  {
  }

  /** Without any of the three keys, or without parameters, the defaults
      are shown; with `routes` present, its normalization is. */
  lemma DeriveSpec(parameters: Option<map<string, Value>>)
    ensures parameters.None? ==> DeriveSwitchRoutesFromParameters(parameters) == DefaultRoutes()
    ensures parameters.Some? && "routes" !in parameters.value && "conditions" !in parameters.value && "cases" !in parameters.value
      ==> DeriveSwitchRoutesFromParameters(parameters) == DefaultRoutes()
    ensures parameters.Some? && "routes" in parameters.value
      ==> DeriveSwitchRoutesFromParameters(parameters) == NormalizedRoutes(parameters.value["routes"])
  {
  }
}
