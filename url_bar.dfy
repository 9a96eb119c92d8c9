/**
 * The URL bar: the segment object mirrored in the URL fragment, the handlers that
 * edit it, and the debounced writes back to the fragment. `window.location.hash`
 * is the append-only sequence `hashes` of the values written to it, and the
 * `setTimeout` callback is the method `TimerFires`, called by the environment.
 */
module UrlBar {
  import opened Optional
  import opened JsStrings
  import opened JsValues
  import opened Properties
  import opened UrlCodec
  import opened Debounce

  /** A key-scoped edit of the segment object: `segments[key] = value` or `delete segments[key]`. */
  datatype Edit = Put(key: string, value: JsValue) | Remove(key: string)

  function Apply(p: Props, e: Edit): Props {
    match e
    case Put(k, v) => Assign(p, k, v)
    case Remove(k) => Delete(p, k)
  }

  /** After an edit its key holds the new value or is gone; every other key is as before. */
  lemma ApplyLookup(p: Props, e: Edit, j: string)
    requires e.key != ProtoKey
    ensures Lookup(Apply(p, e), j) == if j != e.key then Lookup(p, j) else if e.Put? then Some(e.value) else None
  {
    match e
    case Put(k, v) => LookupAfterAssign(p, k, v, j);
    case Remove(k) => LookupAfterDelete(p, k, j);
  }

  /** An edit leaves the rest of the object, order included, as it was. */
  lemma ApplyTouchesOnlyItsKey(p: Props, e: Edit)
    ensures Delete(Apply(p, e), e.key) == Delete(p, e.key)
  {
    match e
    case Put(k, v) => AssignTouchesOnlyItsKey(p, k, v);
    case Remove(k) => DeleteIdempotent(p, k);
  }

  /** Repeating an edit changes nothing more. */
  lemma ApplyIdempotent(p: Props, e: Edit)
    ensures Apply(Apply(p, e), e) == Apply(p, e)
  {
    match e
    case Put(k, v) => AssignIdempotent(p, k, v);
    case Remove(k) => DeleteIdempotent(p, k);
  }

  lemma ApplyKeepsCanonical(p: Props, e: Edit)
    requires Canonical(p)
    ensures Canonical(Apply(p, e))
  {
    match e
    case Put(k, v) => AssignKeepsCanonical(p, k, v);
    case Remove(k) => DeleteKeepsCanonical(p, k);
  }

  /** `setParam(name, diff)`: nothing when `diff` has no own property `name`, else set to a
      truthy value or delete. */
  function ParamEdit(name: string, diff: map<string, JsValue>): Option<Edit>
  {
    if name !in diff then None
    else if Truthy(diff[name]) then Some(Put(name, diff[name]))
    else Some(Remove(name))
  }

  function WithParam(p: Props, name: string, diff: map<string, JsValue>): Props {
    match ParamEdit(name, diff)
    case None => p
    case Some(e) => Apply(p, e)
  }

  /** The keys a `SEARCH_CHANGED` diff can set. */
  predicate IsSearchKey(k: string) {
    k == "query" || k == "from" || k == "to"
  }

  /** The `SEARCH_CHANGED` handler's effect on the segment object. */
  function WithSearch(p: Props, diff: map<string, JsValue>): Props {
    WithParam(WithParam(WithParam(p, "query", diff), "from", diff), "to", diff)
  }

  /** `setParam`: a key in the diff with a truthy value is set, one with a falsy value
      deleted, and an absent one left alone; no other key changes. */
  lemma WithParamLookup(p: Props, name: string, diff: map<string, JsValue>, j: string)
    requires name != ProtoKey
    ensures Lookup(WithParam(p, name, diff), j) ==
      if j == name && name in diff then (if Truthy(diff[name]) then Some(diff[name]) else None)
      else Lookup(p, j)
  {
    if name in diff {
      ApplyLookup(p, ParamEdit(name, diff).value, j);
    }
  }

  /** `SEARCH_CHANGED` decides `query`, `from` and `to` by the diff alone and leaves
      every other key as it was. */
  lemma WithSearchLookup(p: Props, diff: map<string, JsValue>, j: string)
    ensures Lookup(WithSearch(p, diff), j) ==
      if IsSearchKey(j) && j in diff then (if Truthy(diff[j]) then Some(diff[j]) else None)
      else Lookup(p, j)
  {
    var p1 := WithParam(p, "query", diff);
    var p2 := WithParam(p1, "from", diff);
    WithParamLookup(p, "query", diff, j);
    WithParamLookup(p1, "from", diff, j);
    WithParamLookup(p2, "to", diff, j);
  }

  lemma WithParamKeepsCanonical(p: Props, name: string, diff: map<string, JsValue>)
    requires Canonical(p)
    ensures Canonical(WithParam(p, name, diff))
  {
    if name in diff {
      ApplyKeepsCanonical(p, ParamEdit(name, diff).value);
    }
  }

  lemma WithSearchKeepsCanonical(p: Props, diff: map<string, JsValue>)
    requires Canonical(p)
    ensures Canonical(WithSearch(p, diff))
  {
    WithParamKeepsCanonical(p, "query", diff);
    WithParamKeepsCanonical(WithParam(p, "query", diff), "from", diff);
    WithParamKeepsCanonical(WithParam(WithParam(p, "query", diff), "from", diff), "to", diff);
  }

  /** The `at` value `VIEW_CHANGED` writes: centre latitude and longitude (already
      rounded to eight decimals) and zoom, comma-separated. */
  function AtValue(lat: string, lon: string, zoom: int): string {
    lat + "," + lon + "," + NumberToString(zoom)
  }

  /** `CHANGE_LAYER`: the default layer `awmc` is left out of the fragment. */
  function LayerEdit(layer: string): Edit
  {
    if layer == "awmc" then Remove("layer") else Put("layer", Str(layer))
  }

  /** `SELECTION`: `selectedItems` is `None` for a falsy argument, else the identifiers
      of the selected items. The first one, percent-encoded, becomes `places`. */
  function SelectionEdit(selectedItems: Option<seq<string>>): (r: Edit)
    ensures r.key == "places"
    ensures r.Put? <==> selectedItems.Some? && |selectedItems.value| > 0
    ensures r.Put? ==> r.value == Str(EncodeURIComponent(selectedItems.value[0]))
    ensures r.Put? ==> '&' !in r.value.s && '=' !in r.value.s && '#' !in r.value.s
  {
    match selectedItems
    case Some(items) =>
      if |items| > 0 then
        EncodedIsFragmentSafe(items[0]);
        Put("places", Str(EncodeURIComponent(items[0])))
      else Remove("places")
    case None => Remove("places")
  }

  /** `SHOW_FILTERS`/`HIDE_FILTERS` (`f=open`) and `START_EXPLORATION`/`STOP_EXPLORATION`
      (`ex=true`): a flag key holds its marker value while on and is gone while off. */
  function FlagEdit(key: string, marker: string, on: bool): Edit
  {
    if on then Put(key, Str(marker)) else Remove(key)
  }

  /** `CHANGE_LAYER` on the segment object: `layer` is gone for `awmc` and names any
      other layer; every other key reads as before. */
  lemma LayerEditLookup(p: Props, layer: string, j: string)
    ensures Lookup(Apply(p, LayerEdit(layer)), j) ==
      if j != "layer" then Lookup(p, j)
      else if layer == "awmc" then None
      else Some(Str(layer))
  {
    ApplyLookup(p, LayerEdit(layer), j);
  }

  /** The flag handlers on the segment object: the flag key holds its marker exactly
      while on and is absent while off; every other key reads as before. */
  lemma FlagEditLookup(p: Props, key: string, marker: string, on: bool, j: string)
    requires key != ProtoKey
    ensures Lookup(Apply(p, FlagEdit(key, marker, on)), j) ==
      if j != key then Lookup(p, j)
      else if on then Some(Str(marker))
      else None
  {
    ApplyLookup(p, FlagEdit(key, marker, on), j);
  }

  class URLBar {
    /** The segment object, in its own-property order. */
    var segments: Props
    /** A timer is running. */
    var busy: bool
    /** A request arrived while the timer was running. */
    var updatePending: bool
    /** Timers armed and not yet fired. */
    var timers: nat
    /** The values written to `window.location.hash`, oldest first. */
    var hashes: seq<string>

    function Sched(): Scheduler
      reads this
    {
      Scheduler(busy, updatePending, timers)
    }

    predicate Valid()
      reads this
    {
      Canonical(segments) && Consistent(Sched())
    }

    constructor()
      ensures Valid()
      ensures segments == [] && Sched() == Idle && hashes == []
    {
      segments := [];
      busy := false;
      updatePending := false;
      timers := 0;
      hashes := [];
    }

    /** `parseURLHash(hash)`: the pieces of the fragment are stored in the segment
        object one by one; `from` and `to` are then coerced to integers. */
    method ParseURLHash(hash: string) returns (r: ParseResult)
      requires Valid()
      modifies this`segments
      ensures Valid()
      ensures HashParse(segments, r) == ParseHash(old(segments), hash)
    {
      if IndexOf(hash, "#") != 0 {
        return NoResult;
      }
      var keysVals := Split(hash[1..], '&');
      var bbox: Option<BBox> := None;
      var i := 0;
      while i < |keysVals|
        invariant 0 <= i <= |keysVals|
        invariant Absorb(old(segments), keysVals[..i]) == Absorbed(segments, bbox)
        invariant Valid()
      {
        assert keysVals[..i + 1][..i] == keysVals[..i];
        var threw;
        bbox, threw := StorePiece(keysVals[i], bbox);
        if threw {
          ThrowStopsAbsorb(old(segments), keysVals, i + 1);
          ParseHashThrew(old(segments), hash, segments);
          return Thrown;
        }
        i := i + 1;
      }
      assert keysVals[..i] == keysVals;
      ParseHashAbsorbed(old(segments), hash, segments, bbox);
      CoerceTimespan("from");
      CoerceTimespan("to");
      r := Record(Extend(segments), bbox);
    }

    /** The callback `parseURLHash` runs for each piece: parse a `bbox` value, then
        store the value under its key. `threw` reports the TypeError of a `bbox`
        piece without a value, raised before anything is stored. */
    method StorePiece(keyVal: string, bbox: Option<BBox>) returns (newBBox: Option<BBox>, threw: bool)
      requires Valid()
      modifies this`segments
      ensures Valid()
      ensures AbsorbPiece(old(segments), bbox, keyVal) == if threw then Threw(segments) else Absorbed(segments, newBBox)
    {
      var key, value := PieceKey(keyVal), PieceValue(keyVal);
      newBBox := bbox;
      if key == "bbox" {
        if value.Undefined? {
          return bbox, true;
        }
        newBBox := Some(ParseBBox(value.s));
      }
      AssignKeepsCanonical(segments, key, value);
      segments := Assign(segments, key, value);
      threw := false;
    }

    /** `if (segments.from) segments.from = parseInt(segments.from);`, and the same for `to`. */
    method CoerceTimespan(name: string)
      requires Valid()
      modifies this`segments
      ensures Valid()
      ensures segments == CoerceNumber(old(segments), name)
    {
      CoerceKeepsCanonical(segments, name);
      var value := Read(segments, name);
      if Truthy(value) {
        segments := Assign(segments, name, ParseInt(ToString(value)));
      }
    }

    /** `setParam(name, diff)` */
    method SetParam(name: string, diff: map<string, JsValue>)
      requires Valid()
      modifies this`segments
      ensures Valid()
      ensures segments == WithParam(old(segments), name, diff)
    {
      WithParamKeepsCanonical(segments, name, diff);
      if name in diff {
        if Truthy(diff[name]) {
          segments := Assign(segments, name, diff[name]);
        } else {
          segments := Delete(segments, name);
        }
      }
    }

    /** `updateNow`: write the segment object to the fragment. */
    method UpdateNow()
      modifies this`hashes
      ensures hashes == old(hashes) + [Serialize(segments)]
    {
      hashes := hashes + [Serialize(segments)];
    }

    /** `scheduleUpdate`: set `busy` and arm the timer. */
    method ScheduleUpdate()
      modifies this`busy, this`timers
      ensures Sched() == Arm(old(Sched()))
    {
      busy := true;
      timers := timers + 1;
    }

    /** `updateURLField`: request a debounced write. */
    method UpdateURLField()
      modifies this`busy, this`updatePending, this`timers
      ensures Sched() == Request(old(Sched()))
    {
      if busy {
        updatePending := true;
      } else {
        ScheduleUpdate();
      }
    }

    /** The timer callback: write the segment object as it is now, clear `busy`, and
        re-arm once for a pending request. */
    method TimerFires()
      requires Valid() && timers > 0
      modifies this`busy, this`updatePending, this`timers, this`hashes
      ensures Valid()
      ensures Sched() == Fire(old(Sched()))
      ensures hashes == old(hashes) + [Serialize(segments)]
    {
      timers := timers - 1;
      UpdateNow();
      busy := false;
      if updatePending {
        updatePending := false;
        ScheduleUpdate();
      }
    }

    /** Applies a key-scoped edit and writes the fragment at once. */
    method EditNow(e: Edit)
      requires Valid()
      modifies this`segments, this`hashes
      ensures Valid()
      ensures segments == Apply(old(segments), e)
      ensures hashes == old(hashes) + [Serialize(segments)]
    {
      ApplyKeepsCanonical(segments, e);
      match e {
        case Put(k, v) => segments := Assign(segments, k, v);
        case Remove(k) => segments := Delete(segments, k);
      }
      UpdateNow();
    }

    /** `VIEW_CHANGED`: set `at` and request a debounced write. */
    method ViewChanged(lat: string, lon: string, zoom: int)
      requires Valid()
      modifies this`segments, this`busy, this`updatePending, this`timers
      ensures Valid()
      ensures segments == Assign(old(segments), "at", Str(AtValue(lat, lon, zoom)))
      ensures Lookup(segments, "at") == Some(Str(AtValue(lat, lon, zoom)))
      ensures Delete(segments, "at") == Delete(old(segments), "at")
      ensures Sched() == Request(old(Sched()))
    {
      var at := Str(AtValue(lat, lon, zoom));
      AssignKeepsCanonical(segments, "at", at);
      LookupAfterAssign(segments, "at", at, "at");
      AssignTouchesOnlyItsKey(segments, "at", at);
      segments := Assign(segments, "at", at);
      UpdateURLField();
    }

    /** `SEARCH_CHANGED`: apply `query`, `from` and `to` from the diff and request a
        debounced write. */
    method SearchChanged(diff: map<string, JsValue>)
      requires Valid()
      modifies this`segments, this`busy, this`updatePending, this`timers
      ensures Valid()
      ensures segments == WithSearch(old(segments), diff)
      ensures Sched() == Request(old(Sched()))
    {
      SetParam("query", diff);
      SetParam("from", diff);
      SetParam("to", diff);
      UpdateURLField();
    }

    /** `CHANGE_LAYER` */
    method ChangeLayer(layer: string)
      requires Valid()
      modifies this`segments, this`hashes
      ensures Valid()
      ensures segments == Apply(old(segments), LayerEdit(layer))
      ensures hashes == old(hashes) + [Serialize(segments)]
    {
      EditNow(LayerEdit(layer));
    }

    /** `SELECTION` */
    method Selection(selectedItems: Option<seq<string>>)
      requires Valid()
      modifies this`segments, this`hashes
      ensures Valid()
      ensures segments == Apply(old(segments), SelectionEdit(selectedItems))
      ensures hashes == old(hashes) + [Serialize(segments)]
    {
      EditNow(SelectionEdit(selectedItems));
    }

    /** `SHOW_FILTERS` */
    method ShowFilters()
      requires Valid()
      modifies this`segments, this`hashes
      ensures Valid()
      ensures segments == Apply(old(segments), FlagEdit("f", "open", true))
      ensures hashes == old(hashes) + [Serialize(segments)]
    {
      EditNow(FlagEdit("f", "open", true));
    }

    /** `HIDE_FILTERS` */
    method HideFilters()
      requires Valid()
      modifies this`segments, this`hashes
      ensures Valid()
      ensures segments == Apply(old(segments), FlagEdit("f", "open", false))
      ensures hashes == old(hashes) + [Serialize(segments)]
    {
      EditNow(FlagEdit("f", "open", false));
    }

    /** `START_EXPLORATION` */
    method StartExploration()
      requires Valid()
      modifies this`segments, this`hashes
      ensures Valid()
      ensures segments == Apply(old(segments), FlagEdit("ex", "true", true))
      ensures hashes == old(hashes) + [Serialize(segments)]
    {
      EditNow(FlagEdit("ex", "true", true));
    }

    /** `STOP_EXPLORATION` */
    method StopExploration()
      requires Valid()
      modifies this`segments, this`hashes
      ensures Valid()
      ensures segments == Apply(old(segments), FlagEdit("ex", "true", false))
      ensures hashes == old(hashes) + [Serialize(segments)]
    {
      EditNow(FlagEdit("ex", "true", false));
    }
  }
}
