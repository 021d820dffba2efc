/** The hourly-mode wrapper appended to the page: a function expression called at once
    that rebuilds a local `REGIONS` table with fields `n`/`d` from the page's shared
    table with fields `name`/`desc`, and hands exactly one binding, `hvInit`, back to
    the page's global scope. */
module Isolation {
  import opened Wrappers

  /** A region record in the page's shared table. */
  datatype HostRegion = HostRegion(name: string, desc: string)

  /** A region record in the format the hourly code reads. */
  datatype LocalRegion = LocalRegion(n: string, d: string)

  /** The record conversion the adapter applies to one entry. */
  function ToLocal(v: HostRegion): LocalRegion {
    LocalRegion(v.name, v.desc)
  }

  /** The intended adapter, entry by entry: same keys, `n` from `name`, `d` from `desc`. */
  function Adapt(outer: map<string, HostRegion>): (r: map<string, LocalRegion>)
    ensures r.Keys == outer.Keys
  {
    map k | k in outer :: ToLocal(outer[k])
  }

  /** The inverse conversion, back to the shared format. */
  function Restore(local: map<string, LocalRegion>): (r: map<string, HostRegion>)
    ensures r.Keys == local.Keys
  {
    map k | k in local :: HostRegion(local[k].n, local[k].d)
  }

  /** Converting and converting back gives the shared table unchanged: the adapter loses
      no key and no field. */
  lemma RestoreAdapt(outer: map<string, HostRegion>)
    ensures Restore(Adapt(outer)) == outer
  {
  }

  /** The adapter's key set and fields, stated one key at a time. */
  lemma AdaptFields(outer: map<string, HostRegion>, k: string)
    ensures k in Adapt(outer) <==> k in outer
    ensures k in outer ==> Adapt(outer)[k].n == outer[k].name && Adapt(outer)[k].d == outer[k].desc
  {
  }

  /** An object literal's own entries, in order, as `Object.entries` lists them; a key
      written twice keeps the later value. */
  function TableFrom(acc: map<string, HostRegion>, entries: seq<(string, HostRegion)>): map<string, HostRegion>
    decreases |entries|
  {
    if entries == [] then acc
    else TableFrom(acc[entries[0].0 := entries[0].1], entries[1..])
  }

  /** The table an entry list denotes. */
  function ToMap(entries: seq<(string, HostRegion)>): map<string, HostRegion> {
    TableFrom(map[], entries)
  }

  /** `Object.entries(...).forEach(([k, v]) => { REGIONS[k] = { n: v.name, d: v.desc }; })`:
      one assignment per entry, in order, into the local table. */
  function ForEachAssign(acc: map<string, LocalRegion>, entries: seq<(string, HostRegion)>): map<string, LocalRegion>
    decreases |entries|
  {
    if entries == [] then acc
    else ForEachAssign(acc[entries[0].0 := ToLocal(entries[0].1)], entries[1..])
  }

  /** Converting one more entry commutes with adding it to the shared table. */
  lemma AdaptUpdate(m: map<string, HostRegion>, k: string, v: HostRegion)
    ensures Adapt(m)[k := ToLocal(v)] == Adapt(m[k := v])
  {
  }

  /** The loop of assignments builds exactly the converted table, starting from any
      already converted prefix. */
  lemma {:induction false} ForEachFrom(m: map<string, HostRegion>, entries: seq<(string, HostRegion)>)
    ensures ForEachAssign(Adapt(m), entries) == Adapt(TableFrom(m, entries))
    decreases |entries|
  {
    if entries != [] {
      AdaptUpdate(m, entries[0].0, entries[0].1);
      ForEachFrom(m[entries[0].0 := entries[0].1], entries[1..]);
    }
  }

  /** Started from the empty local table `const REGIONS = {}`, the loop yields `Adapt`
      of the shared table. */
  lemma ForEachAdapts(entries: seq<(string, HostRegion)>)
    ensures ForEachAssign(map[], entries) == Adapt(ToMap(entries))
  {
    assert Adapt(map[]) == map[];
    ForEachFrom(map[], entries);
  }

  /** The values a page's global names can hold, as far as the wrapper cares. */
  datatype Value = RegionTable(entries: seq<(string, HostRegion)>) | Function | Undefined

  /** A classic script's global scope: `const`/`let` declarations live in the
      declarative record `lexical`; `var` declarations and assignments to undeclared
      names become properties of `window`. */
  datatype GlobalEnv = GlobalEnv(lexical: map<string, Value>, window: map<string, Value>)

  /** A top-level `const` or `let` declaration. */
  function DeclareConst(env: GlobalEnv, x: string, v: Value): GlobalEnv {
    env.(lexical := env.lexical[x := v])
  }

  /** A top-level `var` declaration, which creates a property of `window`. */
  function DeclareVar(env: GlobalEnv, x: string, v: Value): GlobalEnv {
    env.(window := env.window[x := v])
  }

  /** What a bare name `x` means at the top level: the declarative record is consulted
      before the global object. */
  function Resolve(env: GlobalEnv, x: string): (r: Option<Value>)
    ensures r.None? <==> x !in env.lexical && x !in env.window
    ensures x in env.lexical ==> r == Some(env.lexical[x])
    ensures x !in env.lexical && x in env.window ==> r == Some(env.window[x])
  {
    if x in env.lexical then Some(env.lexical[x])
    else if x in env.window then Some(env.window[x])
    else None
  }

  /** What `window.x` means: a property of the global object only. */
  function WindowProp(env: GlobalEnv, x: string): Option<Value> {
    if x in env.window then Some(env.window[x]) else None
  }

  /** `Object.entries(v || {})`: the entries of a region table, none for a missing or
      `undefined` value, and none for a function, which has no own enumerable keys. */
  function EntriesOr(v: Option<Value>): seq<(string, HostRegion)> {
    if v.Some? && v.value.RegionTable? then v.value.entries else []
  }

  /** The adapter as the page emits it: it reads `window.REGIONS`. */
  function AdapterAsWritten(env: GlobalEnv): map<string, LocalRegion> {
    ForEachAssign(map[], EntriesOr(WindowProp(env, "REGIONS")))
  }

  /** The adapter as intended: it reads the shared `REGIONS` the page declares. Inside
      the wrapper the name `REGIONS` denotes the wrapper's own `const`, which shadows
      the shared one, so the intended code has to give its local table another name. */
  function Adapter(env: GlobalEnv): map<string, LocalRegion> {
    ForEachAssign(map[], EntriesOr(Resolve(env, "REGIONS")))
  }

  /** The page's global scope when the wrapper runs: the shared table is a top-level
      `const REGIONS`, and `var hvInit` is declared just before the wrapper. */
  function PageEnv(regions: seq<(string, HostRegion)>): GlobalEnv {
    DeclareVar(DeclareConst(GlobalEnv(map[], map[]), "REGIONS", RegionTable(regions)), "hvInit", Undefined)
  }

  /** The intended adapter gives the hourly code every shared region, converted. */
  lemma AdapterKeepsRegions(regions: seq<(string, HostRegion)>)
    ensures Adapter(PageEnv(regions)) == Adapt(ToMap(regions))
    ensures Adapter(PageEnv(regions)).Keys == ToMap(regions).Keys
  {
    ForEachAdapts(regions);
  }

  /** As emitted, the adapter sees no `window.REGIONS` because the shared table is a
      `const`, so the hourly code's table is empty whatever the page declares. */
  lemma AsWrittenLosesRegions(regions: seq<(string, HostRegion)>)
    ensures AdapterAsWritten(PageEnv(regions)) == map[]
    ensures regions != [] ==> AdapterAsWritten(PageEnv(regions)) != Adapter(PageEnv(regions))
  {
    if regions != [] {
      AdapterKeepsRegions(regions);
      var k := regions[0].0;
      TableHasKey(map[], regions, 0);
      assert k in Adapter(PageEnv(regions));
    }
  }

  /** Every key of the entry list ends up in the table. */
  lemma {:induction false} TableHasKey(acc: map<string, HostRegion>, entries: seq<(string, HostRegion)>, i: nat)
    requires i < |entries|
    ensures entries[i].0 in TableFrom(acc, entries)
    decreases |entries|
  {
    if i == 0 {
      TableKeepsKey(acc[entries[0].0 := entries[0].1], entries[1..], entries[0].0);
    } else {
      TableHasKey(acc[entries[0].0 := entries[0].1], entries[1..], i - 1);
    }
  }

  /** A key once in the table stays there. */
  lemma {:induction false} TableKeepsKey(acc: map<string, HostRegion>, entries: seq<(string, HostRegion)>, k: string)
    requires k in acc
    ensures k in TableFrom(acc, entries)
    decreases |entries|
  {
    if entries != [] {
      TableKeepsKey(acc[entries[0].0 := entries[0].1], entries[1..], k);
    }
  }

  /** The two readings agree whenever the shared table is not a lexical declaration. */
  lemma AdaptersAgreeOnWindow(env: GlobalEnv)
    requires "REGIONS" !in env.lexical
    ensures AdapterAsWritten(env) == Adapter(env)
  {
  }

  /** An assignment `x = v` made inside the wrapper: it lands on the wrapper's own
      binding when `x` is declared there, otherwise on the global binding `x` resolves
      to, and on a new `window` property when `x` is not declared anywhere. A lexical
      global is treated as writable, as a `let` is; assigning to a global `const` would
      throw a `TypeError` instead. No modelled run reaches that case: the captured code
      assigns only the wrapper's own names, and `hvInit` is a `var` on the page. */
  function AssignFromWrapper(env: GlobalEnv, locals: set<string>, x: string, v: Value): GlobalEnv {
    if x in locals then env
    else if x in env.lexical then DeclareConst(env, x, v)
    else DeclareVar(env, x, v)
  }

  /** The wrapper's assignments to names, in order. */
  function RunWrapper(env: GlobalEnv, locals: set<string>, assigns: seq<(string, Value)>): GlobalEnv
    decreases |assigns|
  {
    if assigns == [] then env
    else RunWrapper(AssignFromWrapper(env, locals, assigns[0].0, assigns[0].1), locals, assigns[1..])
  }

  /** The names the wrapper assigns without declaring them. */
  ghost predicate Escapes(locals: set<string>, assigns: seq<(string, Value)>, x: string) {
    x !in locals && exists i :: 0 <= i < |assigns| && assigns[i].0 == x
  }

  /** A global name the wrapper does not assign without declaring keeps its meaning. */
  lemma {:induction false} RunWrapperFrame(env: GlobalEnv, locals: set<string>, assigns: seq<(string, Value)>, y: string)
    requires !Escapes(locals, assigns, y)
    ensures Resolve(RunWrapper(env, locals, assigns), y) == Resolve(env, y)
    ensures WindowProp(RunWrapper(env, locals, assigns), y) == WindowProp(env, y)
    decreases |assigns|
  {
    if assigns != [] {
      if y !in locals {
        assert assigns[0].0 != y;
        forall i | 0 <= i < |assigns[1..]|
          ensures assigns[1..][i].0 != y
        {
          assert assigns[1..][i] == assigns[i + 1];
        }
      }
      RunWrapperFrame(AssignFromWrapper(env, locals, assigns[0].0, assigns[0].1), locals, assigns[1..], y);
    }
  }

  /** The assignment the wrapper itself makes to a name it does not declare, after the
      captured hourly code. */
  const WrapperAssigns: seq<(string, Value)> := [("hvInit", Function)]

  /** Every assignment in `assigns` targets a name the wrapper declares. */
  predicate AllLocal(locals: set<string>, assigns: seq<(string, Value)>) {
    forall i :: 0 <= i < |assigns| ==> assigns[i].0 in locals
  }

  /** Assignments to the wrapper's own bindings leave the page's global scope as it was. */
  lemma {:induction false} LocalAssignsInvisible(env: GlobalEnv, locals: set<string>, captured: seq<(string, Value)>, rest: seq<(string, Value)>)
    requires AllLocal(locals, captured)
    ensures RunWrapper(env, locals, captured + rest) == RunWrapper(env, locals, rest)
    decreases |captured|
  {
    if captured == [] {
      assert captured + rest == rest;
    } else {
      assert (captured + rest)[0] == captured[0];
      assert (captured + rest)[1..] == captured[1..] + rest;
      assert AllLocal(locals, captured[1..]) by {
        forall i | 0 <= i < |captured[1..]|
          ensures captured[1..][i].0 in locals
        {
          assert captured[1..][i] == captured[i + 1];
        }
      }
      LocalAssignsInvisible(env, locals, captured[1..], rest);
      assert AssignFromWrapper(env, locals, captured[0].0, captured[0].1) == env;
      assert RunWrapper(env, locals, captured + rest)
        == RunWrapper(AssignFromWrapper(env, locals, captured[0].0, captured[0].1), locals, captured[1..] + rest);
    }
  }

  /** Whatever the wrapper declares for itself (the adapted `REGIONS`, the hourly state,
      the captured hourly functions), provided it does not declare `hvInit` and the
      captured code assigns only names the wrapper declares, running it changes the
      page's global scope at `hvInit` only, which then holds a function. */
  lemma OnlyHvInitExported(env: GlobalEnv, locals: set<string>, captured: seq<(string, Value)>)
    requires "hvInit" !in locals && AllLocal(locals, captured)
    ensures Resolve(RunWrapper(env, locals, captured + WrapperAssigns), "hvInit") == Some(Function)
    ensures forall y :: y != "hvInit" ==>
      Resolve(RunWrapper(env, locals, captured + WrapperAssigns), y) == Resolve(env, y)
  {
    LocalAssignsInvisible(env, locals, captured, WrapperAssigns);
    forall y | y != "hvInit"
      ensures Resolve(RunWrapper(env, locals, WrapperAssigns), y) == Resolve(env, y)
    {
      RunWrapperFrame(env, locals, WrapperAssigns, y);
    }
  }

  /** On the page itself, `hvInit` was declared with `var`, so the export becomes the
      `window.hvInit` property that the page's other scripts call. */
  lemma PageExportsHvInit(regions: seq<(string, HostRegion)>, locals: set<string>, captured: seq<(string, Value)>)
    requires "hvInit" !in locals && AllLocal(locals, captured)
    ensures WindowProp(RunWrapper(PageEnv(regions), locals, captured + WrapperAssigns), "hvInit") == Some(Function)
    ensures Resolve(RunWrapper(PageEnv(regions), locals, captured + WrapperAssigns), "REGIONS")
      == Some(RegionTable(regions))
  {
    LocalAssignsInvisible(PageEnv(regions), locals, captured, WrapperAssigns);
    RunWrapperFrame(PageEnv(regions), locals, WrapperAssigns, "REGIONS");
  }

  /** The hourly code's own state that `hvInit` touches: the selected region and the
      regions whose story has been built, in call order. */
  datatype HourlyState = HourlyState(selReg: Option<string>, stories: seq<string>)

  /** `hvInit(rk)`: nothing when `RDATA[rk]` is missing or falsy; otherwise select `rk`
      and build its story. `rdata` holds the keys whose `RDATA` entry is truthy (the
      entries are per-region data objects, so in practice the keys present). */
  function HvInit(st: HourlyState, rdata: set<string>, rk: string): HourlyState {
    if rk !in rdata then st
    else HourlyState(Some(rk), st.stories + [rk])
  }

  /** `hvInit` leaves the state alone exactly when the region has no hourly data, and
      otherwise selects that region and builds its story once. */
  lemma HvInitGuard(st: HourlyState, rdata: set<string>, rk: string)
    ensures HvInit(st, rdata, rk) == st <==> rk !in rdata
    ensures rk in rdata ==> HvInit(st, rdata, rk) == HourlyState(Some(rk), st.stories + [rk])
  {
    if rk in rdata {
      assert |HvInit(st, rdata, rk).stories| == |st.stories| + 1;
    }
  }
}
