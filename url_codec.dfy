/**
 * The URL-hash codec of the URL bar: how `parseURLHash` reads a `#k=v&k=v`
 * fragment into the segment object, and how `updateNow` writes the segment
 * object back as `k=v&k=v`. Both are stated as functions of the segment
 * object before the call; the URL bar's methods are proved against them.
 */
module UrlCodec {
  import opened Optional
  import opened JsStrings
  import opened JsValues
  import opened Properties

  /** The record `parseBBox` returns. Each component is the comma-separated field
      that is passed to `parseFloat`; `None` stands for a missing field, which
      `parseFloat` turns into NaN. */
  datatype BBox = BBox(north: Option<string>, east: Option<string>, south: Option<string>, west: Option<string>)

  /** `values[i]`, or `undefined` past the end of the array. */
  function Field(values: seq<string>, i: nat): Option<string> {
    if i < |values| then Some(values[i]) else None
  }

  /** `parseBBox`: the comma-separated fields in the order west, east, south, north. */
  function ParseBBox(bboxStr: string): BBox {
    var values := Split(bboxStr, ',');
    BBox(north := Field(values, 3), east := Field(values, 1), south := Field(values, 2), west := Field(values, 0))
  }

  /** `bbox=w,e,s,n` yields west `w`, east `e`, south `s` and north `n`. */
  lemma ParseBBoxOrder(w: string, e: string, s: string, n: string)
    requires ',' !in w && ',' !in e && ',' !in s && ',' !in n
    ensures ParseBBox(w + "," + e + "," + s + "," + n) == BBox(Some(n), Some(e), Some(s), Some(w))
  {
    var xs := [w, e, s, n];
    assert Join(xs[..2], ',') == w + "," + e by {
      assert xs[..2][..1] == [w];
    }
    assert Join(xs[..3], ',') == w + "," + e + "," + s by {
      assert xs[..3][..2] == xs[..2];
    }
    assert xs[..|xs| - 1] == xs[..3];
    SplitJoin(xs, ',');
  }

  /** The key of one `&`-separated piece: the text before its first `=`. */
  function PieceKey(piece: string): string {
    Split(piece, '=')[0]
  }

  /** The value of one piece: the text between its first and second `=`, or
      `undefined` when it has no `=`. No percent-decoding is done. */
  function PieceValue(piece: string): JsValue {
    var parts := Split(piece, '=');
    if |parts| > 1 then Str(parts[1]) else Undefined
  }

  /** A piece without `=` is a key with value `undefined`. */
  lemma PieceWithoutEquals(piece: string)
    requires '=' !in piece
    ensures PieceKey(piece) == piece && PieceValue(piece) == Undefined
  {
    SplitNoSeparator(piece, '=');
  }

  /** A piece `k=v` or `k=v=...` has key `k` and value `v`. */
  lemma PieceSplitsAtFirstEquals(k: string, v: string, rest: string)
    requires '=' !in k && '=' !in v
    requires rest == "" || rest[0] == '='
    ensures PieceKey(k + "=" + v + rest) == k
    ensures PieceValue(k + "=" + v + rest) == Str(v)
  {
    assert k + "=" + v + rest == k + ['='] + (v + rest);
    SplitAtFirst(k, '=', v + rest);
    if rest == "" {
      assert v + rest == v;
      SplitNoSeparator(v, '=');
    } else {
      assert v + rest == v + ['='] + rest[1..];
      SplitAtFirst(v, '=', rest[1..]);
    }
  }

  /** The state of the `jQuery.each` loop over the pieces: the segment object and
      the last parsed bbox, or the segment object as it stood when
      `undefined.split` threw a TypeError. */
  datatype Absorbed = Absorbed(segments: Props, bbox: Option<BBox>) | Threw(segments: Props)

  /** One round of the loop: a `bbox` piece is parsed first (and throws when it has no
      value), then `segments[key] = value`. */
  function AbsorbPiece(segments: Props, bbox: Option<BBox>, piece: string): Absorbed {
    var key, value := PieceKey(piece), PieceValue(piece);
    if key == "bbox" && value.Undefined? then Threw(segments)
    else Absorbed(Assign(segments, key, value), if key == "bbox" then Some(ParseBBox(value.s)) else bbox)
  }

  /** The loop run over `pieces` in order, stopping at a throw. */
  function Absorb(segments: Props, pieces: seq<string>): Absorbed {
    if pieces == [] then Absorbed(segments, None)
    else
      match Absorb(segments, pieces[..|pieces| - 1])
      case Threw(s) => Threw(s)
      case Absorbed(s, b) => AbsorbPiece(s, b, pieces[|pieces| - 1])
  }

  /** Once a piece has thrown, the later pieces are never looked at. */
  lemma {:induction false} ThrowStopsAbsorb(segments: Props, pieces: seq<string>, n: nat)
    requires n <= |pieces| && Absorb(segments, pieces[..n]).Threw?
    ensures Absorb(segments, pieces) == Absorb(segments, pieces[..n])
    decreases |pieces|
  {
    if n < |pieces| {
      var init := pieces[..|pieces| - 1];
      assert init[..n] == pieces[..n];
      ThrowStopsAbsorb(segments, init, n);
    } else {
      assert pieces[..n] == pieces;
    }
  }

  /** `if (segments.from) segments.from = parseInt(segments.from);` */
  function CoerceNumber(segments: Props, name: string): Props {
    var v := Read(segments, name);
    if Truthy(v) then Assign(segments, name, ParseInt(ToString(v))) else segments
  }

  /** `jQuery.extend({}, segments)`: the own properties copied, in order, into a new
      object, skipping those whose value is `undefined`. */
  function Extend(src: Props): Props {
    if src == [] then []
    else
      var copy, e := Extend(src[..|src| - 1]), src[|src| - 1];
      if e.value == Undefined then copy else Assign(copy, e.key, e.value)
  }

  /** The properties whose value is not `undefined`, in order. */
  function Defined(p: Props): (r: Props)
    ensures forall e :: e in r ==> e in p && e.value != Undefined
  {
    if p == [] then []
    else
      var r, e := Defined(p[..|p| - 1]), p[|p| - 1];
      if e.value == Undefined then r else r + [e]
  }

  /** What `parseURLHash` returns: nothing (`undefined`), the settings record, or the
      TypeError it threw. In the record the `bbox` property holds `bbox` when that is
      present and the raw text otherwise. */
  datatype ParseResult = NoResult | Record(settings: Props, bbox: Option<BBox>) | Thrown

  /** The segment object after `parseURLHash`, and what the call returned. */
  datatype HashParse = HashParse(segments: Props, result: ParseResult)

  /** `parseURLHash(hash)` applied to the segment object `segments`. */
  function ParseHash(segments: Props, hash: string): HashParse {
    if IndexOf(hash, "#") != 0 then HashParse(segments, NoResult)
    else
      match Absorb(segments, Split(hash[1..], '&'))
      case Threw(s) => HashParse(s, Thrown)
      case Absorbed(s, b) =>
        var coerced := CoerceNumber(CoerceNumber(s, "from"), "to");
        HashParse(coerced, Record(Extend(coerced), b))
  }

  /** How `parseURLHash` ends when every piece was stored. */
  lemma ParseHashAbsorbed(segments: Props, hash: string, s: Props, b: Option<BBox>)
    requires IndexOf(hash, "#") == 0
    requires Absorb(segments, Split(hash[1..], '&')) == Absorbed(s, b)
    ensures var coerced := CoerceNumber(CoerceNumber(s, "from"), "to");
      ParseHash(segments, hash) == HashParse(coerced, Record(Extend(coerced), b))
  {
  }

  /** How `parseURLHash` ends when a piece threw. */
  lemma ParseHashThrew(segments: Props, hash: string, s: Props)
    requires IndexOf(hash, "#") == 0
    requires Absorb(segments, Split(hash[1..], '&')) == Threw(s)
    ensures ParseHash(segments, hash) == HashParse(s, Thrown)
  {
  }

  /** One `key=value` piece as `updateNow` writes it. */
  function PropPiece(e: Prop): string {
    e.key + "=" + ToString(e.value)
  }

  /** The pieces of the fragment, in enumeration order. */
  function Pieces(p: Props): (r: seq<string>)
    ensures |r| == |p|
  {
    if p == [] then [] else Pieces(p[..|p| - 1]) + [PropPiece(p[|p| - 1])]
  }

  /** `updateNow`: the pieces joined by `&`. */
  function Serialize(p: Props): string {
    Join(Pieces(p), '&')
  }

  /** A fragment that does not start with `#` (the empty one included) yields nothing
      and leaves the segment object as it was; one that does always yields a result. */
  lemma NotAHashLeavesSegments(segments: Props, hash: string)
    ensures ParseHash(segments, hash).result == NoResult <==> !("#" <= hash)
    ensures !("#" <= hash) ==> ParseHash(segments, hash).segments == segments
  {
    IndexOfZeroIffPrefix(hash, "#");
  }

  /** A fragment `#k` whose one piece has no `=` creates the key `k` with value
      `undefined`, which the returned record leaves out and the next write spells
      `k=undefined`. */
  lemma KeyWithoutValue(k: string)
    requires '&' !in k && '=' !in k && k != "bbox" && k != ProtoKey && k != "from" && k != "to"
    ensures ParseHash([], "#" + k) == HashParse([Prop(k, Undefined)], Record([], None))
    ensures Serialize([Prop(k, Undefined)]) == k + "=undefined"
  {
    var hash := "#" + k;
    IndexOfZeroIffPrefix(hash, "#");
    assert hash[1..] == k;
    SplitNoSeparator(k, '&');
    StoreKeyWithoutValue(k);
    var p := [Prop(k, Undefined)];
    CoerceAbsent(p, "from");
    CoerceAbsent(p, "to");
    assert p[..0] == [];
    assert Extend(p) == [];
    assert Pieces(p) == [PropPiece(p[0])];
  }

  lemma StoreKeyWithoutValue(k: string)
    requires '=' !in k && k != "bbox" && k != ProtoKey
    ensures Absorb([], [k]) == Absorbed([Prop(k, Undefined)], None)
  {
    PieceWithoutEquals(k);
    assert [k][..0] == [];
    assert Assign([], k, Undefined) == [Prop(k, Undefined)];
  }

  /** A bare `#` yields the empty key: the empty segment object does not survive a
      write followed by a parse. */
  lemma BareHashCreatesEmptyKey()
    ensures Serialize([]) == ""
    ensures ParseHash([], "#" + Serialize([])) == HashParse([Prop("", Undefined)], Record([], None))
  {
    KeyWithoutValue("");
  }

  /** Among the pieces of one fragment the last one with a given key decides its value:
      later pieces with other keys do not disturb it. */
  lemma {:induction false} LaterPieceWins(segments: Props, pieces: seq<string>, i: nat, k: string)
    requires i < |pieces| && PieceKey(pieces[i]) == k && k != ProtoKey
    requires forall j :: i < j < |pieces| ==> PieceKey(pieces[j]) != k
    requires Absorb(segments, pieces).Absorbed?
    ensures Lookup(Absorb(segments, pieces).segments, k) == Some(PieceValue(pieces[i]))
    decreases |pieces|
  {
    var init, last := pieces[..|pieces| - 1], pieces[|pieces| - 1];
    var st := Absorb(segments, init);
    assert st.Absorbed?;
    if i == |pieces| - 1 {
      LookupAfterAssign(st.segments, k, PieceValue(last), k);
    } else {
      assert init[i] == pieces[i];
      assert forall j :: i < j < |init| ==> init[j] == pieces[j];
      LaterPieceWins(segments, init, i, k);
      LookupAfterAssign(st.segments, PieceKey(last), PieceValue(last), k);
    }
  }

  /** The last `bbox` piece decides both halves of the bbox: the loop's parsed bbox is
      `parseBBox` of its value, while `segments.bbox` keeps that value as raw text. */
  lemma {:induction false} LastBBoxPieceDecides(segments: Props, pieces: seq<string>, i: nat)
    requires i < |pieces| && PieceKey(pieces[i]) == "bbox"
    requires forall j :: i < j < |pieces| ==> PieceKey(pieces[j]) != "bbox"
    requires Absorb(segments, pieces).Absorbed?
    ensures PieceValue(pieces[i]).Str?
    ensures Absorb(segments, pieces).bbox == Some(ParseBBox(PieceValue(pieces[i]).s))
    ensures Lookup(Absorb(segments, pieces).segments, "bbox") == Some(PieceValue(pieces[i]))
    decreases |pieces|
  {
    LaterPieceWins(segments, pieces, i, "bbox");
    var init := pieces[..|pieces| - 1];
    assert Absorb(segments, init).Absorbed?;
    if i < |pieces| - 1 {
      assert init[i] == pieces[i];
      assert forall j :: i < j < |init| ==> init[j] == pieces[j];
      LastBBoxPieceDecides(segments, init, i);
    }
  }

  /** For any fragment, on any segment object: when `parseURLHash` returns its record,
      the record's `bbox` is `parseBBox` of the last `bbox` piece, and `segments.bbox`
      keeps that piece's raw text. */
  lemma ParseHashBBox(segments: Props, hash: string, i: nat)
    requires "#" <= hash
    requires var pieces := Split(hash[1..], '&');
      i < |pieces| && PieceKey(pieces[i]) == "bbox"
      && forall j :: i < j < |pieces| ==> PieceKey(pieces[j]) != "bbox"
    ensures var r, value := ParseHash(segments, hash), PieceValue(Split(hash[1..], '&')[i]);
      && r.result != NoResult
      && (r.result.Record? ==>
            && value.Str?
            && r.result.bbox == Some(ParseBBox(value.s))
            && Lookup(r.segments, "bbox") == Some(value))
  {
    IndexOfZeroIffPrefix(hash, "#");
    var pieces := Split(hash[1..], '&');
    var st := Absorb(segments, pieces);
    if st.Absorbed? {
      LastBBoxPieceDecides(segments, pieces, i);
      CoerceNumberChangesOnlyItsKey(st.segments, "from", "bbox");
      CoerceNumberChangesOnlyItsKey(CoerceNumber(st.segments, "from"), "to", "bbox");
    }
  }

  /** The loop keeps the segment object one an object can have. */
  lemma {:induction false} AbsorbKeepsCanonical(segments: Props, pieces: seq<string>)
    requires Canonical(segments)
    ensures Canonical(Absorb(segments, pieces).segments)
  {
    if pieces != [] {
      var init := pieces[..|pieces| - 1];
      AbsorbKeepsCanonical(segments, init);
      var st := Absorb(segments, init);
      if st.Absorbed? {
        AssignKeepsCanonical(st.segments, PieceKey(pieces[|pieces| - 1]), PieceValue(pieces[|pieces| - 1]));
      }
    }
  }

  /** The coercion of `from` keeps the segment object one an object can have. */
  lemma CoerceKeepsCanonical(segments: Props, name: string)
    requires Canonical(segments)
    ensures Canonical(CoerceNumber(segments, name))
  {
    var v := Read(segments, name);
    AssignKeepsCanonical(segments, name, ParseInt(ToString(v)));
  }

  /** Parsing keeps the segment object one an object can have. */
  lemma ParseHashKeepsCanonical(segments: Props, hash: string)
    requires Canonical(segments)
    ensures Canonical(ParseHash(segments, hash).segments)
  {
    if IndexOf(hash, "#") == 0 {
      var pieces := Split(hash[1..], '&');
      AbsorbKeepsCanonical(segments, pieces);
      var st := Absorb(segments, pieces);
      if st.Absorbed? {
        CoerceKeepsCanonical(st.segments, "from");
        CoerceKeepsCanonical(CoerceNumber(st.segments, "from"), "to");
      }
    }
  }

  /** Only `from` changes, and only when it held a truthy value: it then holds the
      integer `parseInt` reads from it, or NaN. */
  lemma CoerceNumberChangesOnlyItsKey(segments: Props, name: string, j: string)
    requires name != ProtoKey
    ensures var c := CoerceNumber(segments, name);
      && (j != name ==> Lookup(c, j) == Lookup(segments, j))
      && (Truthy(Read(segments, name)) ==> Lookup(c, name) == Some(ParseInt(ToString(Read(segments, name)))))
      && (!Truthy(Read(segments, name)) ==> Lookup(c, name) == Lookup(segments, name))
  {
    var v := Read(segments, name);
    LookupAfterAssign(segments, name, ParseInt(ToString(v)), j);
    LookupAfterAssign(segments, name, ParseInt(ToString(v)), name);
  }

  /** All values are text or `undefined`. */
  predicate TextValued(p: Props) {
    forall e :: e in p ==> e.value.Str? || e.value.Undefined?
  }

  lemma {:induction false} AbsorbKeepsText(segments: Props, pieces: seq<string>)
    requires TextValued(segments)
    ensures TextValued(Absorb(segments, pieces).segments)
  {
    if pieces != [] {
      var init := pieces[..|pieces| - 1];
      AbsorbKeepsText(segments, init);
      var st := Absorb(segments, init);
      if st.Absorbed? {
        AssignKeepsText(st.segments, PieceKey(pieces[|pieces| - 1]), PieceValue(pieces[|pieces| - 1]));
      }
    }
  }

  lemma AssignKeepsText(p: Props, k: string, v: JsValue)
    requires TextValued(p) && (v.Str? || v.Undefined?)
    ensures TextValued(Assign(p, k, v))
  {
    forall e | e in Assign(p, k, v) ensures e.value.Str? || e.value.Undefined? {
      AssignValues(p, k, v, e);
    }
  }

  /** Every value after an assignment was there before or is the assigned one. */
  lemma AssignValues(p: Props, k: string, v: JsValue, e: Prop)
    requires e in Assign(p, k, v)
    ensures e in p || e == Prop(k, v)
  {
    if k != ProtoKey && Lookup(p, k).Some? {
      ReplaceValues(p, k, v, e);
    } else if k != ProtoKey && IsArrayIndex(k) {
      InsertIndexValues(p, Prop(k, v), e);
    }
  }

  lemma {:induction false} ReplaceValues(p: Props, k: string, v: JsValue, e: Prop)
    requires e in Replace(p, k, v)
    ensures e in p || e == Prop(k, v)
  {
    if p != [] && p[0].key != k && e != p[0] {
      ReplaceValues(p[1..], k, v, e);
    }
  }

  lemma {:induction false} InsertIndexValues(p: Props, x: Prop, e: Prop)
    requires IsArrayIndex(x.key) && e in InsertIndex(p, x)
    ensures e in p || e == x
  {
    if !(p == [] || !IsArrayIndex(p[0].key) || ArrayIndex(x.key) < ArrayIndex(p[0].key)) && e != p[0] {
      InsertIndexValues(p[1..], x, e);
    }
  }

  /** Starting from a segment object of text values, a parse that returns a record
      leaves every key other than `from` and `to` with a text or `undefined` value;
      `from` and `to` hold a number or NaN unless they were empty or `undefined`. */
  lemma ParsedValueKinds(segments: Props, hash: string)
    requires Canonical(segments) && TextValued(segments)
    ensures ParseHash(segments, hash).result.Record? ==> forall e :: e in ParseHash(segments, hash).segments ==>
      if e.key == "from" || e.key == "to" then e.value.Num? || e.value.NaN? || e.value == Str("") || e.value == Undefined
      else e.value.Str? || e.value.Undefined?
  {
    if IndexOf(hash, "#") == 0 {
      var pieces := Split(hash[1..], '&');
      AbsorbKeepsText(segments, pieces);
      AbsorbKeepsCanonical(segments, pieces);
      var st := Absorb(segments, pieces);
      if st.Absorbed? {
        var s0 := st.segments;
        var s1 := CoerceNumber(s0, "from");
        CoerceKeepsCanonical(s0, "from");
        assert ParseHash(segments, hash).segments == CoerceNumber(s1, "to");
        forall e | e in CoerceNumber(s1, "to")
          ensures if e.key == "from" || e.key == "to" then e.value.Num? || e.value.NaN? || e.value == Str("") || e.value == Undefined
                  else e.value.Str? || e.value.Undefined?
        {
          CoercedEntry(s1, "to", e);
          if e.key != "to" {
            CoercedEntry(s0, "from", e);
          } else if e in s1 {
            CoercedEntry(s0, "from", e);
          }
        }
      }
    }
  }

  /** An entry after the coercion of `name`: other keys are untouched, and `name`
      holds the number read for it or a value that is not truthy. */
  lemma CoercedEntry(p: Props, name: string, e: Prop)
    requires Canonical(p) && name != ProtoKey
    requires e in CoerceNumber(p, name)
    ensures e.key != name ==> e in p
    ensures e.key == name ==> e.value.Num? || e.value.NaN? || (!Truthy(e.value) && e in p)
  {
    var v := Read(p, name);
    var i :| 0 <= i < |CoerceNumber(p, name)| && CoerceNumber(p, name)[i] == e;
    if Truthy(v) {
      ReplaceInCanonical(p, name, ParseInt(ToString(v)));
      assert p[i] in p;
    } else {
      LookupAt(p, i);
    }
  }

  /** The record `parseURLHash` returns holds exactly the properties of the segment
      object whose value is not `undefined`, in the same order. */
  lemma {:induction false} ExtendSkipsUndefined(src: Props)
    requires Canonical(src)
    ensures Extend(src) == Defined(src) && Canonical(Defined(src))
  {
    if src != [] {
      var init, e := src[..|src| - 1], src[|src| - 1];
      assert init + [e] == src;
      CanonicalSnoc(init, e);
      ExtendSkipsUndefined(init);
      if e.value != Undefined {
        CanonicalSnoc(Defined(init), e);
        AssignAppendsNewKey(Defined(init), e.key, e.value);
      }
    }
  }

  /** The serialised pieces come back from splitting the fragment at `&`. */
  lemma SplitSerialized(p: Props)
    requires p != []
    requires forall i :: 0 <= i < |p| ==> '&' !in PropPiece(p[i])
    ensures Split(Serialize(p), '&') == Pieces(p)
  {
    forall i | 0 <= i < |p| ensures '&' !in Pieces(p)[i] {
      PieceAt(p, i);
    }
    SplitJoin(Pieces(p), '&');
  }

  lemma {:induction false} PieceAt(p: Props, i: nat)
    requires i < |p|
    ensures Pieces(p)[i] == PropPiece(p[i])
  {
    if i < |p| - 1 {
      PieceAt(p[..|p| - 1], i);
    }
  }

  /** A key that is absent is not written: no piece of the fragment has it as key. */
  lemma AbsentKeyNotSerialized(p: Props, k: string)
    requires Lookup(p, k).None?
    requires forall e :: e in p ==> '=' !in e.key
    ensures forall i :: 0 <= i < |p| ==> PieceKey(Pieces(p)[i]) != k
  {
    forall i | 0 <= i < |p| ensures PieceKey(Pieces(p)[i]) != k {
      PieceAt(p, i);
      var e := p[i];
      assert e in p;
      var t := ToString(e.value);
      assert e.key + "=" + t == e.key + ['='] + t;
      SplitAtFirst(e.key, '=', t);
    }
  }

  /** Maps that survive the trip through the fragment: keys without `&` and `=`,
      text values without `&` and `=`, and numbers under `from` and `to`. */
  predicate FragmentSafe(m: Props) {
    forall e :: e in m ==>
      && '&' !in e.key && '=' !in e.key
      && if e.key == "from" || e.key == "to" then e.value.Num?
         else e.value.Str? && '&' !in e.value.s && '=' !in e.value.s
  }

  /** The values as the fragment spells them. */
  function Stringify(m: Props): Props
  {
    seq(|m|, i requires 0 <= i < |m| => Prop(m[i].key, Str(ToString(m[i].value))))
  }

  /** Each key of the stringified map holds the fragment text of its old value, and
      no key is gained or lost. */
  lemma {:induction false} LookupStringify(m: Props, k: string)
    ensures Lookup(Stringify(m), k) ==
      match Lookup(m, k)
      case Some(v) => Some(Str(ToString(v)))
      case None => None
  {
    if m != [] {
      assert Stringify(m)[1..] == Stringify(m[1..]);
      LookupStringify(m[1..], k);
    }
  }

  /** The bbox record parsed from the `bbox` property, if there is one. */
  function BBoxOf(m: Props): Option<BBox> {
    match Lookup(m, "bbox")
    case Some(v) => Some(ParseBBox(ToString(v)))
    case None => None
  }

  /** Canonical form depends on the keys only. */
  lemma {:induction false} SameKeysCanonical(p: Props, q: Props)
    requires Canonical(p) && |p| == |q|
    requires forall i :: 0 <= i < |p| ==> p[i].key == q[i].key
    ensures Canonical(q)
  {
    if p != [] {
      SameKeysCanonical(p[1..], q[1..]);
      forall e | e in q[1..] ensures ListedBefore(q[0].key, e.key) {
        var j :| 0 <= j < |q[1..]| && q[1..][j] == e;
        assert p[1..][j] in p[1..];
      }
    }
  }

  /** In a canonical list, looking up the key of an entry finds that entry. */
  lemma {:induction false} LookupAt(p: Props, i: nat)
    requires Canonical(p) && i < |p|
    ensures Lookup(p, p[i].key) == Some(p[i].value)
  {
    if i > 0 {
      assert p[i] in p[1..];
      LookupAt(p[1..], i - 1);
    }
  }

  /** On a canonical list, overwriting a key changes exactly the entry with that key. */
  lemma {:induction false} ReplaceInCanonical(p: Props, k: string, v: JsValue)
    requires Canonical(p)
    ensures |Replace(p, k, v)| == |p|
    ensures forall i :: 0 <= i < |p| ==> Replace(p, k, v)[i] == if p[i].key == k then Prop(k, v) else p[i]
  {
    if p != [] {
      ReplaceInCanonical(p[1..], k, v);
      if p[0].key == k {
        forall i | 1 <= i < |p| ensures p[i].key != k {
          assert p[i] in p[1..];
        }
      }
    }
  }

  /** In a canonical list no two entries share a key. */
  lemma {:induction false} CanonicalKeysDistinct(p: Props, i: nat, j: nat)
    requires Canonical(p) && i < j < |p|
    ensures p[i].key != p[j].key
  {
    if i == 0 {
      assert p[j] in p[1..];
    } else {
      CanonicalKeysDistinct(p[1..], i - 1, j - 1);
    }
  }

  /** One more piece: parsing `key=value` written from the last entry appends that entry
      as text, and takes the bbox from it when its key is `bbox`. */
  lemma AbsorbLastPiece(init: Props, x: Prop)
    requires Canonical(init + [x]) && FragmentSafe(init + [x])
    ensures AbsorbPiece(Stringify(init), BBoxOf(init), PropPiece(x)) == Absorbed(Stringify(init + [x]), BBoxOf(init + [x]))
  {
    var m := init + [x];
    CanonicalSnoc(init, x);
    var text := ToString(x.value);
    assert x in m;
    assert '=' !in text by {
      if x.key == "from" || x.key == "to" {
        NumeralsHaveNoSeparator(x.value.n);
      }
    }
    PieceSplitsAtFirstEquals(x.key, text, "");
    assert PropPiece(x) == x.key + "=" + text + "";
    SameKeysCanonical(m, Stringify(m));
    assert Stringify(m) == Stringify(init) + [Prop(x.key, Str(text))];
    AssignAppendsNewKey(Stringify(init), x.key, Str(text));
    LookupAfterAppend(init, x, "bbox");
  }

  /** Parsing the pieces of a fragment-safe map from an empty segment object gives the
      map with every value as text. */
  lemma {:induction false} AbsorbPieces(m: Props)
    requires Canonical(m) && FragmentSafe(m)
    ensures Absorb([], Pieces(m)) == Absorbed(Stringify(m), BBoxOf(m))
  {
    if m != [] {
      var init, x := m[..|m| - 1], m[|m| - 1];
      assert init + [x] == m;
      CanonicalSnoc(init, x);
      assert FragmentSafe(init) by {
        forall e | e in init ensures e in m { }
      }
      AbsorbPieces(init);
      assert Pieces(m)[..|m| - 1] == Pieces(init);
      AbsorbLastPiece(init, x);
    }
  }

  /** A numeral holds digits and possibly a minus sign only. */
  lemma NumeralsHaveNoSeparator(n: int)
    ensures '&' !in NumberToString(n) && '=' !in NumberToString(n)
  {
    var d := NatToString(if n < 0 then -n else n);
    forall i | 0 <= i < |d| ensures d[i] != '&' && d[i] != '=' {
      assert IsDecimalDigit(d[i]);
    }
  }

  /** Coercing a key that is absent changes nothing. */
  lemma CoerceAbsent(q: Props, k: string)
    requires forall i :: 0 <= i < |q| ==> q[i].key != k
    ensures CoerceNumber(q, k) == q
  {
    assert Lookup(q, k).None?;
  }

  /** Coercing the key `k` of entry `i`, which spells the number `n`, turns it back into `n`. */
  lemma CoercePresent(q: Props, k: string, i: nat, n: int)
    requires Canonical(q) && k != ProtoKey && i < |q|
    requires q[i] == Prop(k, Str(NumberToString(n)))
    ensures |CoerceNumber(q, k)| == |q|
    ensures forall j :: 0 <= j < |q| ==> CoerceNumber(q, k)[j] == if j == i then Prop(k, Num(n)) else q[j]
  {
    LookupAt(q, i);
    NumberToStringNonEmpty(n);
    ParseIntOfNumberToString(n);
    ReplaceInCanonical(q, k, Num(n));
    forall j | 0 <= j < |q| && j != i ensures q[j].key != k {
      if j < i {
        CanonicalKeysDistinct(q, j, i);
      } else {
        CanonicalKeysDistinct(q, i, j);
      }
    }
  }

  /** The coercion of one numeric key undoes its spelling as text. */
  lemma CoerceOne(q: Props, m: Props, k: string)
    requires Canonical(q) && |q| == |m| && k != ProtoKey
    requires forall i :: 0 <= i < |q| ==> q[i].key == m[i].key
    requires forall i :: 0 <= i < |q| && q[i].key == k ==> m[i].value.Num? && q[i].value == Str(NumberToString(m[i].value.n))
    ensures var r := CoerceNumber(q, k);
      |r| == |q| && forall i :: 0 <= i < |q| ==> r[i] == if q[i].key == k then m[i] else q[i]
  {
    if i :| 0 <= i < |q| && q[i].key == k {
      CoercePresent(q, k, i, m[i].value.n);
      forall j | 0 <= j < |q| && j != i ensures q[j].key != k {
        if j < i {
          CanonicalKeysDistinct(q, j, i);
        } else {
          CanonicalKeysDistinct(q, i, j);
        }
      }
    } else {
      CoerceAbsent(q, k);
    }
  }

  /** The `from`/`to` coercion turns the text form of a fragment-safe map back into the map. */
  lemma CoerceRestores(m: Props)
    requires Canonical(m) && FragmentSafe(m)
    ensures CoerceNumber(CoerceNumber(Stringify(m), "from"), "to") == m
  {
    var s0 := Stringify(m);
    SameKeysCanonical(m, s0);
    forall i | 0 <= i < |m| && s0[i].key == "from"
      ensures m[i].value.Num? && s0[i].value == Str(NumberToString(m[i].value.n))
    {
      assert m[i] in m;
    }
    CoerceOne(s0, m, "from");
    var s1 := CoerceNumber(s0, "from");
    SameKeysCanonical(m, s1);
    forall i | 0 <= i < |m| && s1[i].key == "to"
      ensures m[i].value.Num? && s1[i].value == Str(NumberToString(m[i].value.n))
    {
      assert m[i] in m;
    }
    CoerceOne(s1, m, "to");
    var s2 := CoerceNumber(s1, "to");
    forall i | 0 <= i < |m| ensures s2[i] == m[i] {
      assert m[i] in m;
    }
  }

  /** The fragment written for a fragment-safe map splits back into its pieces. */
  lemma SerializedPieces(m: Props)
    requires m != [] && FragmentSafe(m)
    ensures Split(("#" + Serialize(m))[1..], '&') == Pieces(m)
  {
    assert ("#" + Serialize(m))[1..] == Serialize(m);
    forall i | 0 <= i < |m| ensures '&' !in PropPiece(m[i]) {
      assert m[i] in m;
      if m[i].key == "from" || m[i].key == "to" {
        NumeralsHaveNoSeparator(m[i].value.n);
      }
    }
    SplitSerialized(m);
  }

  /** Round trip: for a non-empty fragment-safe map, parsing `'#' + serialise(m)` into an
      empty segment object reproduces `m` (values, keys and order), returns it as the
      record, and parses its `bbox` property. */
  lemma RoundTrip(m: Props)
    requires Canonical(m) && m != [] && FragmentSafe(m)
    ensures ParseHash([], "#" + Serialize(m)) == HashParse(m, Record(m, BBoxOf(m)))
  {
    var hash := "#" + Serialize(m);
    IndexOfZeroIffPrefix(hash, "#");
    SerializedPieces(m);
    AbsorbPieces(m);
    assert Absorb([], Split(hash[1..], '&')) == Absorbed(Stringify(m), BBoxOf(m));
    CoerceRestores(m);
    ExtendOfFragmentSafe(m);
  }

  /** A fragment-safe map has no `undefined` value, so the record copies all of it. */
  lemma ExtendOfFragmentSafe(m: Props)
    requires Canonical(m) && FragmentSafe(m)
    ensures Extend(m) == m
  {
    ExtendSkipsUndefined(m);
    assert forall e :: e in m ==> e.value != Undefined;
    DefinedOfDefined(m);
  }

  /** With no `undefined` value, nothing is skipped. */
  lemma {:induction false} DefinedOfDefined(m: Props)
    requires forall e :: e in m ==> e.value != Undefined
    ensures Defined(m) == m
  {
    if m != [] {
      var init := m[..|m| - 1];
      forall e | e in init ensures e.value != Undefined {
        assert e in m;
      }
      DefinedOfDefined(init);
      assert m[|m| - 1] in m;
      assert m == init + [m[|m| - 1]];
    }
  }
}
