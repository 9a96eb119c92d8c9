/**
 * The own properties of a plain JavaScript object such as the URL bar's
 * `segments`, as a list of key/value pairs in the object's enumeration order.
 * Enumeration order follows OrdinaryOwnPropertyKeys (section 10.1.11.1 of
 * ECMA-262): array-index keys first, in ascending numeric order, then the
 * other string keys in the order they were created.
 */
module Properties {
  import opened Optional
  import opened JsValues

  datatype Prop = Prop(key: string, value: JsValue)

  type Props = seq<Prop>

  /** Assigning a primitive to `o['__proto__']` goes to the prototype setter,
      which ignores it; it never creates an own property. */
  const ProtoKey := "__proto__"

  /** An array index: the canonical numeral of an integer below 2^32 - 1 (section 6.1.7 of ECMA-262). */
  predicate IsArrayIndex(k: string) {
    k != [] && AllRadixDigits(k, 10) && NatToString(DigitsValue(k, 10)) == k
    && DigitsValue(k, 10) < 0xFFFF_FFFF
  }

  function ArrayIndex(k: string): nat
    requires IsArrayIndex(k)
  {
    DigitsValue(k, 10)
  }

  /** In enumeration order, key `a` may come before a different key `b`. */
  predicate ListedBefore(a: string, b: string) {
    a != b && (IsArrayIndex(b) ==> IsArrayIndex(a) && ArrayIndex(a) < ArrayIndex(b))
  }

  /** A property list an object can have: distinct keys, array indices ahead of other
      keys and ascending, and no own `__proto__`. */
  predicate Canonical(p: Props) {
    p == [] || (p[0].key != ProtoKey && (forall e :: e in p[1..] ==> ListedBefore(p[0].key, e.key)) && Canonical(p[1..]))
  }

  /** The own property `k`, if there is one. */
  function Lookup(p: Props, k: string): (r: Option<JsValue>)
    ensures r.None? <==> forall e :: e in p ==> e.key != k
  {
    if p == [] then None else if p[0].key == k then Some(p[0].value) else Lookup(p[1..], k)
  }

  /** Reading `o[k]`: the own value, or `undefined` when there is none (the keys read
      here are not properties of `Object.prototype`). */
  function Read(p: Props, k: string): JsValue {
    match Lookup(p, k)
    case Some(v) => v
    case None => Undefined
  }

  /** Overwrites the value of the existing property `k` in place. */
  function Replace(p: Props, k: string, v: JsValue): Props {
    if p == [] then []
    else if p[0].key == k then [Prop(k, v)] + p[1..]
    else [p[0]] + Replace(p[1..], k, v)
  }

  /** Creates array-index property `x` after the smaller array indices. */
  function InsertIndex(p: Props, x: Prop): Props
    requires IsArrayIndex(x.key)
  {
    if p == [] || !IsArrayIndex(p[0].key) || ArrayIndex(x.key) < ArrayIndex(p[0].key) then [x] + p
    else [p[0]] + InsertIndex(p[1..], x)
  }

  /** `o[k] = v` for a primitive `v`. */
  function Assign(p: Props, k: string, v: JsValue): Props {
    if k == ProtoKey then p
    else if Lookup(p, k).Some? then Replace(p, k, v)
    else if IsArrayIndex(k) then InsertIndex(p, Prop(k, v))
    else p + [Prop(k, v)]
  }

  /** `delete o[k]` */
  function Delete(p: Props, k: string): (r: Props)
    ensures forall e :: e in r <==> e in p && e.key != k
  {
    if p == [] then []
    else if p[0].key == k then Delete(p[1..], k)
    else [p[0]] + Delete(p[1..], k)
  }

  lemma {:induction false} LookupAfterReplace(p: Props, k: string, v: JsValue, j: string)
    ensures Lookup(Replace(p, k, v), j) == if j == k && Lookup(p, k).Some? then Some(v) else Lookup(p, j)
  {
    if p != [] && p[0].key != k {
      LookupAfterReplace(p[1..], k, v, j);
    }
  }

  lemma {:induction false} LookupAfterInsertIndex(p: Props, x: Prop, j: string)
    requires IsArrayIndex(x.key) && Lookup(p, x.key).None?
    ensures Lookup(InsertIndex(p, x), j) == if j == x.key then Some(x.value) else Lookup(p, j)
  {
    if !(p == [] || !IsArrayIndex(p[0].key) || ArrayIndex(x.key) < ArrayIndex(p[0].key)) {
      LookupAfterInsertIndex(p[1..], x, j);
    }
  }

  lemma {:induction false} LookupAfterAppend(p: Props, x: Prop, j: string)
    requires Lookup(p, x.key).None?
    ensures Lookup(p + [x], j) == if j == x.key then Some(x.value) else Lookup(p, j)
  {
    if p != [] {
      assert (p + [x])[1..] == p[1..] + [x];
      LookupAfterAppend(p[1..], x, j);
    }
  }

  /** After `o[k] = v`, `o[k]` is `v` and every other property reads as before. */
  lemma LookupAfterAssign(p: Props, k: string, v: JsValue, j: string)
    ensures Lookup(Assign(p, k, v), j) == if j == k && k != ProtoKey then Some(v) else Lookup(p, j)
  {
    if k != ProtoKey {
      if Lookup(p, k).Some? {
        LookupAfterReplace(p, k, v, j);
      } else if IsArrayIndex(k) {
        LookupAfterInsertIndex(p, Prop(k, v), j);
      } else {
        LookupAfterAppend(p, Prop(k, v), j);
      }
    }
  }

  /** After `delete o[k]`, `o[k]` is absent and every other property reads as before. */
  lemma {:induction false} LookupAfterDelete(p: Props, k: string, j: string)
    ensures Lookup(Delete(p, k), j) == if j == k then None else Lookup(p, j)
  {
    if p != [] {
      LookupAfterDelete(p[1..], k, j);
    }
  }

  lemma {:induction false} ReplaceKeepsCanonical(p: Props, k: string, v: JsValue)
    requires Canonical(p)
    ensures Canonical(Replace(p, k, v))
    ensures forall e :: e in Replace(p, k, v) ==> exists d :: d in p && d.key == e.key
  {
    if p != [] {
      ReplaceKeepsCanonical(p[1..], k, v);
      var r := Replace(p, k, v);
      if p[0].key != k {
        assert r[1..] == Replace(p[1..], k, v);
        forall e | e in r[1..] ensures ListedBefore(p[0].key, e.key) {
          var d :| d in p[1..] && d.key == e.key;
        }
      }
    }
  }

  lemma {:induction false} InsertIndexKeepsCanonical(p: Props, x: Prop)
    requires Canonical(p) && IsArrayIndex(x.key) && Lookup(p, x.key).None?
    ensures Canonical(InsertIndex(p, x))
    ensures forall e :: e in InsertIndex(p, x) <==> e in p || e == x
  {
    if p == [] || !IsArrayIndex(p[0].key) || ArrayIndex(x.key) < ArrayIndex(p[0].key) {
      forall e | e in p ensures ListedBefore(x.key, e.key) {
        if IsArrayIndex(e.key) && e != p[0] {
          assert ListedBefore(p[0].key, e.key);
        }
      }
    } else {
      InsertIndexKeepsCanonical(p[1..], x);
      assert ListedBefore(p[0].key, x.key);
    }
  }

  lemma AppendKeepsCanonical(p: Props, x: Prop)
    requires Canonical(p) && x.key != ProtoKey && !IsArrayIndex(x.key) && Lookup(p, x.key).None?
    ensures Canonical(p + [x])
  {
    CanonicalSnoc(p, x);
  }

  /** Assignment keeps the property list one an object can have. */
  lemma AssignKeepsCanonical(p: Props, k: string, v: JsValue)
    requires Canonical(p)
    ensures Canonical(Assign(p, k, v))
  {
    if k != ProtoKey {
      if Lookup(p, k).Some? {
        ReplaceKeepsCanonical(p, k, v);
      } else if IsArrayIndex(k) {
        InsertIndexKeepsCanonical(p, Prop(k, v));
      } else {
        AppendKeepsCanonical(p, Prop(k, v));
      }
    }
  }

  /** Deletion keeps the property list one an object can have. */
  lemma {:induction false} DeleteKeepsCanonical(p: Props, k: string)
    requires Canonical(p)
    ensures Canonical(Delete(p, k))
  {
    if p != [] {
      DeleteKeepsCanonical(p[1..], k);
    }
  }

  /** A property list extended at its end is canonical exactly when the new key is
      allowed after every key already there. */
  lemma {:induction false} CanonicalSnoc(p: Props, x: Prop)
    ensures Canonical(p + [x]) <==>
      Canonical(p) && x.key != ProtoKey && forall e :: e in p ==> ListedBefore(e.key, x.key)
  {
    if p != [] {
      assert (p + [x])[1..] == p[1..] + [x];
      CanonicalSnoc(p[1..], x);
    }
  }

  /** Assigning a key that may stand last (a new key, later than the others in
      enumeration order) appends it. */
  lemma {:induction false} AssignAppendsNewKey(p: Props, k: string, v: JsValue)
    requires Canonical(p + [Prop(k, v)])
    ensures Assign(p, k, v) == p + [Prop(k, v)]
  {
    CanonicalSnoc(p, Prop(k, v));
    if IsArrayIndex(k) {
      InsertIndexAtEnd(p, Prop(k, v));
    }
  }

  lemma {:induction false} InsertIndexAtEnd(p: Props, x: Prop)
    requires IsArrayIndex(x.key)
    requires forall e :: e in p ==> ListedBefore(e.key, x.key)
    ensures InsertIndex(p, x) == p + [x]
  {
    if p != [] {
      assert p[0] in p;
      InsertIndexAtEnd(p[1..], x);
    }
  }

  lemma {:induction false} ReplaceSameValue(p: Props, k: string, v: JsValue)
    requires Lookup(p, k) == Some(v)
    ensures Replace(p, k, v) == p
  {
    if p[0].key != k {
      ReplaceSameValue(p[1..], k, v);
    }
  }

  /** Assigning the same value twice is the same as assigning it once. */
  lemma AssignIdempotent(p: Props, k: string, v: JsValue)
    ensures Assign(Assign(p, k, v), k, v) == Assign(p, k, v)
  {
    if k != ProtoKey {
      LookupAfterAssign(p, k, v, k);
      ReplaceSameValue(Assign(p, k, v), k, v);
    }
  }

  /** Deleting twice is the same as deleting once. */
  lemma {:induction false} DeleteIdempotent(p: Props, k: string)
    ensures Delete(Delete(p, k), k) == Delete(p, k)
  {
    if p != [] {
      DeleteIdempotent(p[1..], k);
    }
  }

  lemma {:induction false} DeleteAppend(p: Props, q: Props, k: string)
    ensures Delete(p + q, k) == Delete(p, k) + Delete(q, k)
  {
    if p != [] {
      assert (p + q)[1..] == p[1..] + q;
      DeleteAppend(p[1..], q, k);
    } else {
      assert p + q == q;
    }
  }

  lemma {:induction false} DeleteAfterReplace(p: Props, k: string, v: JsValue)
    ensures Delete(Replace(p, k, v), k) == Delete(p, k)
  {
    if p != [] {
      DeleteAfterReplace(p[1..], k, v);
    }
  }

  lemma {:induction false} DeleteAfterInsertIndex(p: Props, x: Prop)
    requires IsArrayIndex(x.key)
    ensures Delete(InsertIndex(p, x), x.key) == Delete(p, x.key)
  {
    if !(p == [] || !IsArrayIndex(p[0].key) || ArrayIndex(x.key) < ArrayIndex(p[0].key)) {
      DeleteAfterInsertIndex(p[1..], x);
    }
  }

  /** `o[k] = v` touches no property but `k`: the other properties keep their values
      and their order. */
  lemma AssignTouchesOnlyItsKey(p: Props, k: string, v: JsValue)
    ensures Delete(Assign(p, k, v), k) == Delete(p, k)
  {
    if k != ProtoKey {
      if Lookup(p, k).Some? {
        DeleteAfterReplace(p, k, v);
      } else if IsArrayIndex(k) {
        DeleteAfterInsertIndex(p, Prop(k, v));
      } else {
        DeleteAppend(p, [Prop(k, v)], k);
      }
    }
  }
}
