/** Object helpers of src/utils/object.ts over JSON-like values. A value is
    taken as a tree: `set` and `merge`, which write into the caller's object
    in the library, here return the updated tree. */
module ObjectUtils {
  import opened Wrappers
  import opened Decimal
  import opened Seqs

  /** A plain object, or a `Date` holding its time value in milliseconds;
      both are objects and both can carry own properties. */
  datatype ObjKind = Plain | DateObj(time: int)

  /** A JavaScript value. Numbers are integers here; an object keeps its
      own enumerable properties in order. */
  datatype Json =
    | Undefined
    | Null
    | Bool(b: bool)
    | Num(n: int)
    | Str(s: string)
    | Func(id: nat)
    | Arr(items: seq<Json>)
    | Obj(fields: seq<(string, Json)>, kind: ObjKind)

  const EmptyObj: Json := Obj([], Plain)

  predicate UniqueKeys(fields: seq<(string, Json)>) {
    forall i, j :: 0 <= i < j < |fields| ==> fields[i].0 != fields[j].0
  }

  /** Every object in the tree has distinct keys. */
  predicate WF(v: Json)
    decreases v
  {
    match v
    case Arr(items) => forall i :: 0 <= i < |items| ==> WF(items[i])
    case Obj(fields, _) => UniqueKeys(fields) && forall i :: 0 <= i < |fields| ==> WF(fields[i].1)
    case _ => true
  }

  // ---------------------------------------------------------------------
  // isObject

  /** The `typeof` operator. */
  function TypeOf(v: Json): string {
    match v
    case Undefined => "undefined"
    case Bool(_) => "boolean"
    case Num(_) => "number"
    case Str(_) => "string"
    case Func(_) => "function"
    case _ => "object"
  }

  /** `isObject`: an object in the sense of the `Obj` constructor. */
  predicate IsObject(v: Json) { v.Obj? }

  /** The library's test, `item !== null && typeof item === 'object' &&
      !Array.isArray(item)`, picks out exactly the objects: plain objects
      and dates, but not null, arrays, functions or primitives. */
  lemma IsObjectMeans(v: Json)
    ensures IsObject(v) <==> v != Null && TypeOf(v) == "object" && !v.Arr?
  {
  }

  /** JavaScript truthiness of a value (`NaN` is not a value here). */
  predicate Truthy(v: Json) {
    match v
    case Undefined => false
    case Null => false
    case Bool(b) => b
    case Num(n) => n != 0
    case Str(s) => s != ""
    case _ => true
  }

  // ---------------------------------------------------------------------
  // own properties

  /** The value stored under key k, if k is a key of the fields. */
  function Lookup(fields: seq<(string, Json)>, k: string): (r: Option<Json>)
    ensures r.Some? <==> exists i :: 0 <= i < |fields| && fields[i].0 == k
    ensures r.Some? ==> exists i :: 0 <= i < |fields| && fields[i] == (k, r.value)
  {
    if fields == [] then None
    else if fields[0].0 == k then Some(fields[0].1)
    else
      var r := Lookup(fields[1..], k);
      assert forall i :: 1 <= i < |fields| ==> fields[i] == fields[1..][i - 1];
      r
  }

  /** A canonical array index below n: the decimal rendering of a number,
      without leading zeros. */
  predicate IsIndexKey(key: string, n: nat) {
    |key| > 0 && AllDigits(key) && (key[0] != '0' || |key| == 1) && ParseNat(key) < n
  }

  /** The index keys are exactly the renderings of the indices. */
  lemma IndexKeys(key: string, n: nat)
    ensures IsIndexKey(key, n) <==> exists i :: 0 <= i < n && key == NatToString(i)
  {
    if IsIndexKey(key, n) {
      NatToStringParse(key);
      var i := ParseNat(key);
      assert key == NatToString(i);
    }
    if exists i :: 0 <= i < n && key == NatToString(i) {
      var i :| 0 <= i < n && key == NatToString(i);
      ParseNatToString(i);
    }
  }

  /** `Object.prototype.hasOwnProperty.call(v, key)` together with `v[key]`:
      the own property's value, if there is one. Arrays and strings own their
      indices and `length`; objects their keys. */
  function OwnProp(v: Json, key: string): Option<Json> {
    match v
    case Obj(fields, _) => Lookup(fields, key)
    case Arr(items) =>
      if key == "length" then Some(Num(|items|))
      else if IsIndexKey(key, |items|) then Some(items[ParseNat(key)])
      else None
    case Str(s) =>
      if key == "length" then Some(Num(|s|))
      else if IsIndexKey(key, |s|) then Some(Str([s[ParseNat(key)]]))
      else None
    case _ => None
  }

  // ---------------------------------------------------------------------
  // get

  /** Following a key path from v: None as soon as a step meets null or
      undefined or a key that is not an own property. */
  function Resolve(v: Json, keys: seq<string>): Option<Json>
    decreases |keys|
  {
    if keys == [] then Some(v)
    else if v.Null? || v.Undefined? then None
    else match OwnProp(v, keys[0])
      case None => None
      case Some(child) => Resolve(child, keys[1..])
  }

  /** Resolving a path in two steps is resolving it at once. */
  lemma {:induction false} ResolveAppend(v: Json, a: seq<string>, b: seq<string>)
    ensures Resolve(v, a + b) == match Resolve(v, a)
      case None => None
      case Some(u) => Resolve(u, b)
    decreases |a|
  {
    if a == [] {
      assert a + b == b;
    } else {
      assert (a + b)[0] == a[0] && (a + b)[1..] == a[1..] + b;
      if !(v.Null? || v.Undefined?) {
        match OwnProp(v, a[0])
        case None =>
        case Some(child) => ResolveAppend(child, a[1..], b);
      }
    }
  }

  /** What `get(obj, path, defaultValue)` returns: the value at the path,
      unless the path breaks off or ends at undefined. */
  function GetValue(obj: Json, path: string, defaultValue: Json): Json {
    match Resolve(obj, Split(path, '.'))
    case None => defaultValue
    case Some(x) => if x.Undefined? then defaultValue else x
  }

  /** `get`: walks the keys of `path.split('.')`, giving up with the
      default at null, undefined or a missing own property. */
  method Get(obj: Json, path: string, defaultValue: Json) returns (r: Json)
    ensures r == GetValue(obj, path, defaultValue)
  {
    var keys := Split(path, '.');
    var result := obj;
    var i := 0;
    while i < |keys|
      invariant 0 <= i <= |keys|
      invariant Resolve(obj, keys) == Resolve(result, keys[i..])
    {
      var key := keys[i];
      assert keys[i..][0] == key && keys[i..][1..] == keys[i + 1..];
      if result.Null? || result.Undefined? {
        return defaultValue;
      }
      var own := OwnProp(result, key);
      if own.None? {
        return defaultValue;
      }
      result := own.value;
      i := i + 1;
    }
    r := if !result.Undefined? then result else defaultValue;
  }

  /** The outcomes `get` promises: a stored null comes back as null, a
      stored undefined as the default, and a path through null, undefined
      or a missing key gives the default. */
  lemma GetOutcomes(obj: Json, path: string, d: Json)
    ensures Resolve(obj, Split(path, '.')) == Some(Null) ==> GetValue(obj, path, d) == Null
    ensures Resolve(obj, Split(path, '.')) == Some(Undefined) ==> GetValue(obj, path, d) == d
    ensures Resolve(obj, Split(path, '.')).None? ==> GetValue(obj, path, d) == d
    ensures (obj.Null? || obj.Undefined?) ==> GetValue(obj, path, d) == d
  {
    if obj.Null? || obj.Undefined? {
      assert |Split(path, '.')| >= 1;
    }
  }

  // ---------------------------------------------------------------------
  // set

  function KeySet(fields: seq<(string, Json)>): set<string> {
    set i | 0 <= i < |fields| :: fields[i].0
  }

  lemma KeySetCons(e: (string, Json), t: seq<(string, Json)>)
    ensures KeySet([e] + t) == {e.0} + KeySet(t)
  {
    var r := [e] + t;
    forall x | x in KeySet(r) ensures x in {e.0} + KeySet(t) {
      var i :| 0 <= i < |r| && r[i].0 == x;
      if i > 0 { assert t[i - 1].0 == x; }
    }
    forall x | x in KeySet(t) ensures x in KeySet(r) {
      var i :| 0 <= i < |t| && t[i].0 == x;
      assert r[i + 1].0 == x;
    }
    assert r[0].0 == e.0;
  }

  /** `current[key] = value` on an object: the value of an existing key is
      replaced where it stands, a new key goes last. */
  function Put(fields: seq<(string, Json)>, k: string, v: Json): (r: seq<(string, Json)>)
    ensures Lookup(r, k) == Some(v)
    ensures forall k' :: k' != k ==> Lookup(r, k') == Lookup(fields, k')
  {
    if fields == [] then [(k, v)]
    else if fields[0].0 == k then [(k, v)] + fields[1..]
    else [fields[0]] + Put(fields[1..], k, v)
  }

  /** Putting adds the key to the key set, keeps keys distinct, and every
      entry afterwards is the new one or an old one. */
  lemma PutShape(fields: seq<(string, Json)>, k: string, v: Json)
    ensures var r := Put(fields, k, v);
      && KeySet(r) == KeySet(fields) + {k}
      && (UniqueKeys(fields) ==> UniqueKeys(r))
      && forall i :: 0 <= i < |r| ==> r[i] == (k, v) || r[i] in fields
  {
    PutKeys(fields, k, v);
    PutEntries(fields, k, v);
    if UniqueKeys(fields) {
      PutUnique(fields, k, v);
    }
  }

  lemma {:induction false} PutKeys(fields: seq<(string, Json)>, k: string, v: Json)
    ensures KeySet(Put(fields, k, v)) == KeySet(fields) + {k}
  {
    var r := Put(fields, k, v);
    if fields == [] {
      assert KeySet(r) == {k} by { assert r[0].0 == k; }
    } else {
      var e, tail := fields[0], fields[1..];
      assert fields == [e] + tail;
      KeySetCons(e, tail);
      if e.0 == k {
        assert r == [(k, v)] + tail;
        KeySetCons((k, v), tail);
      } else {
        var rest := Put(tail, k, v);
        assert r == [e] + rest;
        PutKeys(tail, k, v);
        KeySetCons(e, rest);
      }
    }
  }

  lemma {:induction false} PutEntries(fields: seq<(string, Json)>, k: string, v: Json)
    ensures forall i :: 0 <= i < |Put(fields, k, v)| ==>
      Put(fields, k, v)[i] == (k, v) || Put(fields, k, v)[i] in fields
  {
    if fields != [] {
      var r, e, tail := Put(fields, k, v), fields[0], fields[1..];
      assert fields == [e] + tail;
      if e.0 == k {
        assert r == [(k, v)] + tail;
        forall i | 1 <= i < |r| ensures r[i] in fields {
          assert r[i] == fields[i];
        }
      } else {
        var rest := Put(tail, k, v);
        PutEntries(tail, k, v);
        assert r == [e] + rest;
        forall i | 1 <= i < |r| ensures r[i] == (k, v) || r[i] in fields {
          assert r[i] == rest[i - 1];
          assert 0 <= i - 1 < |rest|;
          assert rest[i - 1] == (k, v) || rest[i - 1] in tail;
          if r[i] in tail {
            var j :| 0 <= j < |tail| && tail[j] == r[i];
            assert fields[j + 1] == r[i];
          }
        }
      }
    }
  }

  lemma {:induction false} PutUnique(fields: seq<(string, Json)>, k: string, v: Json)
    requires UniqueKeys(fields)
    ensures UniqueKeys(Put(fields, k, v))
  {
    if fields != [] {
      var e, tail := fields[0], fields[1..];
      assert fields == [e] + tail;
      UniqueCons(e, tail);
      if e.0 == k {
        UniqueCons((k, v), tail);
      } else {
        var rest := Put(tail, k, v);
        PutUnique(tail, k, v);
        PutKeys(tail, k, v);
        UniqueCons(e, rest);
      }
    }
  }

  /** Keys stay distinct with one more entry in front exactly when its key
      is not among the others. */
  lemma UniqueCons(e: (string, Json), t: seq<(string, Json)>)
    ensures UniqueKeys([e] + t) <==> e.0 !in KeySet(t) && UniqueKeys(t)
  {
    var r := [e] + t;
    if UniqueKeys(r) {
      forall i, j | 0 <= i < j < |t| ensures t[i].0 != t[j].0 {
        assert t[i] == r[i + 1] && t[j] == r[j + 1];
      }
      forall i | 0 <= i < |t| ensures t[i].0 != e.0 {
        assert r[0] == e && t[i] == r[i + 1];
      }
    }
    if e.0 !in KeySet(t) && UniqueKeys(t) {
      forall i, j | 0 <= i < j < |r| ensures r[i].0 != r[j].0 {
        assert r[j] == t[j - 1];
        if i > 0 { assert r[i] == t[i - 1]; } else { assert t[j - 1].0 in KeySet(t); }
      }
    }
  }

  /** The walk of `set` below an object `cur`: every key but the last
      descends into an existing object, or into a fresh `{}` that replaces a
      missing or non-object value (arrays included); the last key gets the
      value. */
  function SetKeys(cur: Json, keys: seq<string>, value: Json): (r: Json)
    requires cur.Obj? && |keys| >= 1
    ensures r.Obj? && r.kind == cur.kind
    decreases |keys|
  {
    var key := keys[0];
    if |keys| == 1 then Obj(Put(cur.fields, key, value), cur.kind)
    else Obj(Put(cur.fields, key, SetKeys(Child(cur, key), keys[1..], value)), cur.kind)
  }

  /** The object `set` descends into under key: the existing one, or `{}`. */
  function Child(cur: Json, key: string): (r: Json)
    requires cur.Obj?
    ensures r.Obj?
    ensures Lookup(cur.fields, key).Some? && IsObject(Lookup(cur.fields, key).value)
      ==> r == Lookup(cur.fields, key).value
    ensures Lookup(cur.fields, key).None? || !IsObject(Lookup(cur.fields, key).value)
      ==> r == EmptyObj
  {
    var existing := Lookup(cur.fields, key);
    if existing.Some? && IsObject(existing.value) then existing.value else EmptyObj
  }

  const TypeErrorMessage: string := "TypeError"

  /** `set(obj, path, value)`. On an object it returns the updated tree. On
      null, undefined or a primitive the first step throws a TypeError
      (the `in` operator, or a property assignment in strict mode). Arrays
      and functions as the root are outside the model. */
  function Set(obj: Json, path: string, value: Json): (r: Result<Json, string>)
    requires !obj.Arr? && !obj.Func?
    ensures r.Err? <==> !IsObject(obj)
    ensures r.Err? ==> r.error == TypeErrorMessage
  {
    if obj.Obj? then Ok(SetKeys(obj, Split(path, '.'), value)) else Err(TypeErrorMessage)
  }

  /** After setting, the path leads to the value set. */
  lemma {:induction false} ResolveSetKeys(cur: Json, keys: seq<string>, value: Json)
    requires cur.Obj? && |keys| >= 1
    ensures Resolve(SetKeys(cur, keys, value), keys) == Some(value)
    decreases |keys|
  {
    if |keys| > 1 {
      ResolveSetKeys(Child(cur, keys[0]), keys[1..], value);
    }
  }

  /** `get` after `set` on the same path returns the value, or the default
      when the value set is undefined. */
  lemma GetAfterSet(obj: Json, path: string, value: Json, d: Json)
    requires obj.Obj?
    ensures GetValue(Set(obj, path, value).value, path, d) == if value.Undefined? then d else value
  {
    ResolveSetKeys(obj, Split(path, '.'), value);
  }

  /** Keys other than the first segment of the path keep their values at
      the top level; the keys are the old ones plus that segment. */
  lemma SetFrame(obj: Json, path: string, value: Json)
    requires obj.Obj?
    ensures var r := Set(obj, path, value).value; var k0 := Split(path, '.')[0];
      && KeySet(r.fields) == KeySet(obj.fields) + {k0}
      && forall k :: k != k0 ==> OwnProp(r, k) == OwnProp(obj, k)
  {
    var keys := Split(path, '.');
    var child := if |keys| == 1 then value else SetKeys(Child(obj, keys[0]), keys[1..], value);
    PutShape(obj.fields, keys[0], child);
  }

  /** The object `set` builds under a fresh `{}`: one nested object per key. */
  function Chain(keys: seq<string>, value: Json): (r: Json)
    requires |keys| >= 1
    decreases |keys|
  {
    if |keys| == 1 then Obj([(keys[0], value)], Plain)
    else Obj([(keys[0], Chain(keys[1..], value))], Plain)
  }

  lemma {:induction false} SetKeysFresh(keys: seq<string>, value: Json)
    requires |keys| >= 1
    ensures SetKeys(EmptyObj, keys, value) == Chain(keys, value)
    decreases |keys|
  {
    if |keys| > 1 {
      SetKeysFresh(keys[1..], value);
    }
  }

  /** A missing or non-object value on the way (an array, a string, null...)
      is replaced by fresh nested objects holding the value. */
  lemma SetReplacesNonObject(obj: Json, path: string, value: Json)
    requires obj.Obj?
    requires |Split(path, '.')| >= 2
    requires var k0 := Split(path, '.')[0];
      Lookup(obj.fields, k0).None? || !IsObject(Lookup(obj.fields, k0).value)
    ensures var keys := Split(path, '.');
      OwnProp(Set(obj, path, value).value, keys[0]) == Some(Chain(keys[1..], value))
  {
    var keys := Split(path, '.');
    SetKeysFresh(keys[1..], value);
  }

  /** The fields of a well-formed object. */
  predicate FieldsWF(fields: seq<(string, Json)>) {
    UniqueKeys(fields) && forall i :: 0 <= i < |fields| ==> WF(fields[i].1)
  }

  lemma LookupWF(fields: seq<(string, Json)>, k: string)
    requires FieldsWF(fields) && Lookup(fields, k).Some?
    ensures WF(Lookup(fields, k).value)
  {
    var i :| 0 <= i < |fields| && fields[i] == (k, Lookup(fields, k).value);
    assert WF(fields[i].1);
  }

  lemma PutWF(fields: seq<(string, Json)>, k: string, v: Json)
    requires FieldsWF(fields) && WF(v)
    ensures FieldsWF(Put(fields, k, v))
  {
    var r := Put(fields, k, v);
    PutShape(fields, k, v);
    forall i | 0 <= i < |r| ensures WF(r[i].1) {
      if r[i] != (k, v) {
        var j :| 0 <= j < |fields| && fields[j] == r[i];
        assert WF(fields[j].1);
      }
    }
  }

  /** Setting keeps every object's keys distinct. */
  lemma {:induction false} SetKeysWF(cur: Json, keys: seq<string>, value: Json)
    requires cur.Obj? && |keys| >= 1 && WF(cur) && WF(value)
    ensures WF(SetKeys(cur, keys, value))
    decreases |keys|
  {
    var key := keys[0];
    var child := value;
    if |keys| > 1 {
      if Lookup(cur.fields, key).Some? {
        LookupWF(cur.fields, key);
      }
      SetKeysWF(Child(cur, key), keys[1..], value);
      child := SetKeys(Child(cur, key), keys[1..], value);
    }
    PutWF(cur.fields, key, child);
  }

  // ---------------------------------------------------------------------
  // merge

  /** `merge(target, source)` for one source: when both are objects, the
      source's own properties are written into the target in order;
      otherwise the target is left as it is. */
  function MergeInto(target: Json, source: Json): (r: Json)
    ensures !IsObject(target) || !IsObject(source) ==> r == target
    ensures IsObject(target) ==> r.Obj? && r.kind == target.kind
    decreases source, 1, 0
  {
    if IsObject(target) && IsObject(source) then Obj(MergeFrom(target.fields, source, 0), target.kind)
    else target
  }

  /** The target's fields after the source's properties from index i on
      have been written into tf. */
  function MergeFrom(tf: seq<(string, Json)>, source: Json, i: nat): seq<(string, Json)>
    requires source.Obj? && i <= |source.fields|
    decreases source, 0, |source.fields| - i
  {
    if i == |source.fields| then tf
    else
      var (key, sv) := source.fields[i];
      MergeFrom(Put(tf, key, MergedValue(Lookup(tf, key), sv)), source, i + 1)
  }

  /** What ends up under a key whose target value is `cur` (if any) and
      whose source value is `sv`: a non-object replaces; an object is merged
      into the target's value, which is first made `{}` when it is missing
      or falsy. A truthy non-object target value (a number, a string, an
      array...) absorbs the merge and stays as it is. */
  function MergedValue(cur: Option<Json>, sv: Json): Json
    decreases sv, 2, 0
  {
    if IsObject(sv) then MergeInto(if cur.Some? && Truthy(cur.value) then cur.value else EmptyObj, sv)
    else sv
  }

  /** `merge(target, ...sources)`: the sources, one after the other. */
  function MergeAll(target: Json, sources: seq<Json>): (r: Json)
    ensures sources == [] || !IsObject(target) ==> r == target
    ensures IsObject(target) ==> r.Obj? && r.kind == target.kind
    decreases |sources|
  {
    if sources == [] then target else MergeAll(MergeInto(target, sources[0]), sources[1..])
  }

  /** The loop over one source's own properties, recursing into object
      values. */
  method MergeOne(target: Json, source: Json) returns (r: Json)
    ensures r == MergeInto(target, source)
    decreases source, 0
  {
    if !IsObject(target) || !IsObject(source) {
      return target;
    }
    var fields := target.fields;
    var i := 0;
    while i < |source.fields|
      invariant 0 <= i <= |source.fields|
      invariant MergeFrom(fields, source, i) == MergeFrom(target.fields, source, 0)
    {
      var (key, sv) := source.fields[i];
      var value := MergeValue(Lookup(fields, key), sv);
      MergeFromStep(fields, source, i, value);
      fields := Put(fields, key, value);
      i := i + 1;
    }
    r := Obj(fields, target.kind);
  }

  /** The value the loop in MergeOne writes under one key: an object source
      value is merged into the target's value (or into `{}` when that is
      missing or falsy), any other source value replaces it. */
  method MergeValue(cur: Option<Json>, sv: Json) returns (value: Json)
    ensures value == MergedValue(cur, sv)
    decreases sv, 1
  {
    value := sv;
    if IsObject(sv) {
      var base := if cur.Some? && Truthy(cur.value) then cur.value else EmptyObj;
      value := MergeOne(base, sv);
    }
  }

  /** One property of the loop in MergeOne: writing the merged value of
      property i leaves the rest of the merge to do from i + 1. */
  lemma MergeFromStep(fields: seq<(string, Json)>, source: Json, i: nat, value: Json)
    requires source.Obj? && i < |source.fields|
    requires value == MergedValue(Lookup(fields, source.fields[i].0), source.fields[i].1)
    ensures MergeFrom(fields, source, i) == MergeFrom(Put(fields, source.fields[i].0, value), source, i + 1)
  {
  }

  /** `merge`: takes the sources one at a time, left to right. */
  method Merge(target: Json, sources: seq<Json>) returns (r: Json)
    ensures r == MergeAll(target, sources)
  {
    r := target;
    var i := 0;
    while i < |sources|
      invariant 0 <= i <= |sources|
      invariant MergeAll(r, sources[i..]) == MergeAll(target, sources)
    {
      assert sources[i..][0] == sources[i] && sources[i..][1..] == sources[i + 1..];
      r := MergeOne(r, sources[i]);
      i := i + 1;
    }
    assert sources[i..] == [];
  }

  /** Merging several lists of sources is merging them one after another. */
  lemma {:induction false} MergeAllAppend(target: Json, s1: seq<Json>, s2: seq<Json>)
    ensures MergeAll(target, s1 + s2) == MergeAll(MergeAll(target, s1), s2)
    decreases |s1|
  {
    if s1 == [] {
      assert s1 + s2 == s2;
    } else {
      assert (s1 + s2)[0] == s1[0] && (s1 + s2)[1..] == s1[1..] + s2;
      MergeAllAppend(MergeInto(target, s1[0]), s1[1..], s2);
    }
  }

  /** Writing the source's properties from index i on: a key not among them
      keeps its value; a key among them gets the merged value. */
  lemma {:induction false} MergeFromLookup(tf: seq<(string, Json)>, source: Json, i: nat, k: string)
    requires source.Obj? && i <= |source.fields| && UniqueKeys(source.fields)
    ensures (forall j :: i <= j < |source.fields| ==> source.fields[j].0 != k) ==>
      Lookup(MergeFrom(tf, source, i), k) == Lookup(tf, k)
    ensures forall j :: i <= j < |source.fields| && source.fields[j].0 == k ==>
      Lookup(MergeFrom(tf, source, i), k) == Some(MergedValue(Lookup(tf, k), source.fields[j].1))
  {
    if forall j :: i <= j < |source.fields| ==> source.fields[j].0 != k {
      MergeFromUntouched(tf, source, i, k);
    }
    forall j | i <= j < |source.fields| && source.fields[j].0 == k
      ensures Lookup(MergeFrom(tf, source, i), k) == Some(MergedValue(Lookup(tf, k), source.fields[j].1))
    {
      MergeFromWritten(tf, source, i, j, k);
    }
  }

  lemma {:induction false} MergeFromUntouched(tf: seq<(string, Json)>, source: Json, i: nat, k: string)
    requires source.Obj? && i <= |source.fields|
    requires forall j :: i <= j < |source.fields| ==> source.fields[j].0 != k
    ensures Lookup(MergeFrom(tf, source, i), k) == Lookup(tf, k)
    decreases |source.fields| - i
  {
    if i < |source.fields| {
      var key := source.fields[i].0;
      var mv := MergedValue(Lookup(tf, key), source.fields[i].1);
      var tf' := Put(tf, key, mv);
      MergeFromStep(tf, source, i, mv);
      assert Lookup(tf', k) == Lookup(tf, k);
      MergeFromUntouched(tf', source, i + 1, k);
    }
  }

  lemma {:induction false} MergeFromWritten(tf: seq<(string, Json)>, source: Json, i: nat, j: nat, k: string)
    requires source.Obj? && i <= j < |source.fields| && UniqueKeys(source.fields)
    requires source.fields[j].0 == k
    ensures Lookup(MergeFrom(tf, source, i), k) == Some(MergedValue(Lookup(tf, k), source.fields[j].1))
    decreases j - i
  {
    var key := source.fields[i].0;
    var mv := MergedValue(Lookup(tf, key), source.fields[i].1);
    var tf' := Put(tf, key, mv);
    MergeFromStep(tf, source, i, mv);
    if i == j {
      assert forall j' :: i + 1 <= j' < |source.fields| ==> source.fields[j'].0 != k;
      MergeFromUntouched(tf', source, i + 1, k);
    } else {
      assert key != k && Lookup(tf', k) == Lookup(tf, k);
      MergeFromWritten(tf', source, i + 1, j, k);
    }
  }

  /** What merging one object into another does to each key: keys only in
      the target keep their values, and a key of the source gets the merged
      value of the target's and the source's values. */
  lemma MergeIntoLookup(target: Json, source: Json, k: string)
    requires IsObject(target) && IsObject(source) && UniqueKeys(source.fields)
    ensures Lookup(MergeInto(target, source).fields, k) == match Lookup(source.fields, k)
      case None => Lookup(target.fields, k)
      case Some(sv) => Some(MergedValue(Lookup(target.fields, k), sv))
  {
    MergeFromLookup(target.fields, source, 0, k);
  }

  /** Merging keeps every object's keys distinct. */
  lemma {:induction false} MergeIntoWF(target: Json, source: Json)
    requires WF(target) && WF(source)
    ensures WF(MergeInto(target, source))
    decreases source, 1, 0
  {
    if IsObject(target) && IsObject(source) {
      MergeFromWF(target.fields, source, 0);
    }
  }

  lemma {:induction false} MergeFromWF(tf: seq<(string, Json)>, source: Json, i: nat)
    requires source.Obj? && i <= |source.fields| && WF(source) && FieldsWF(tf)
    ensures FieldsWF(MergeFrom(tf, source, i))
    decreases source, 0, |source.fields| - i
  {
    if i < |source.fields| {
      var key := source.fields[i].0;
      var sv := source.fields[i].1;
      var cur := Lookup(tf, key);
      assert WF(sv);
      if cur.Some? {
        LookupWF(tf, key);
      }
      MergedValueWF(cur, sv);
      var v := MergedValue(cur, sv);
      PutWF(tf, key, v);
      MergeFromStep(tf, source, i, v);
      MergeFromWF(Put(tf, key, v), source, i + 1);
    }
  }

  lemma {:induction false} MergedValueWF(cur: Option<Json>, sv: Json)
    requires WF(sv) && (cur.Some? ==> WF(cur.value))
    ensures WF(MergedValue(cur, sv))
    decreases sv, 2, 0
  {
    if IsObject(sv) {
      MergeIntoWF(if cur.Some? && Truthy(cur.value) then cur.value else EmptyObj, sv);
    }
  }

  /** Merging many sources keeps every object's keys distinct. */
  lemma {:induction false} MergeAllWF(target: Json, sources: seq<Json>)
    requires WF(target) && forall i :: 0 <= i < |sources| ==> WF(sources[i])
    ensures WF(MergeAll(target, sources))
    decreases |sources|
  {
    if sources != [] {
      MergeIntoWF(target, sources[0]);
      MergeAllWF(MergeInto(target, sources[0]), sources[1..]);
    }
  }

  /** Writing a key the fields do not have appends it. */
  lemma {:induction false} PutFresh(fields: seq<(string, Json)>, k: string, v: Json)
    requires Lookup(fields, k).None?
    ensures Put(fields, k, v) == fields + [(k, v)]
  {
    if fields != [] {
      var tail := fields[1..];
      assert Lookup(tail, k).None?;
      PutFresh(tail, k, v);
      ConsTail(fields, [(k, v)]);
    }
  }

  /** The tree a merge into `{}` builds from v: every object, dates
      included, becomes a plain object with copies of its own properties;
      other values are kept. */
  function PlainCopy(v: Json): Json
    decreases v
  {
    match v
    case Obj(fields, _) =>
      Obj(seq(|fields|, i requires 0 <= i < |fields| => (fields[i].0, PlainCopy(fields[i].1))), Plain)
    case _ => v
  }

  /** Merging an object into `{}` copies it, but turns every date in it
      into a plain object: a date has no own properties to copy, so
      `merge({}, {d: someDate})` gives `{d: {}}`. */
  lemma {:induction false} MergeIntoEmpty(source: Json)
    requires IsObject(source) && WF(source)
    ensures MergeInto(EmptyObj, source) == PlainCopy(source)
    decreases source, 1, 0
  {
    var p := PlainCopy(source).fields;
    MergeFromEmpty(source, 0);
    assert p[..0] == [] && p[..|p|] == p;
  }

  lemma {:induction false} MergeFromEmpty(source: Json, i: nat)
    requires IsObject(source) && WF(source) && i <= |source.fields|
    ensures var p := PlainCopy(source).fields; MergeFrom(p[..i], source, i) == p
    decreases source, 0, |source.fields| - i
  {
    var p := PlainCopy(source).fields;
    if i == |source.fields| {
      assert p[..i] == p;
    } else {
      var sv := source.fields[i].1;
      PlainCopyPrefix(source, i);
      MergedValueFresh(sv);
      MergeFromEmptyStep(source, i, p);
      MergeFromEmpty(source, i + 1);
    }
  }

  /** One pass of the property loop into a prefix of p, when p's next
      entry is the source's next key with its merged value and the key is
      not in the prefix yet, appends that entry. */
  lemma MergeFromEmptyStep(source: Json, i: nat, p: seq<(string, Json)>)
    requires source.Obj? && i < |source.fields| && i < |p|
    requires p[i] == (source.fields[i].0, MergedValue(None, source.fields[i].1))
    requires Lookup(p[..i], source.fields[i].0).None?
    ensures MergeFrom(p[..i], source, i) == MergeFrom(p[..i + 1], source, i + 1)
  {
    var key, pre := source.fields[i].0, p[..i];
    PutFresh(pre, key, p[i].1);
    TakeSnoc(p, i);
  }

  lemma {:induction false} MergedValueFresh(sv: Json)
    requires WF(sv)
    ensures MergedValue(None, sv) == PlainCopy(sv)
    decreases sv, 2, 0
  {
    if IsObject(sv) {
      MergeIntoEmpty(sv);
    }
  }

  lemma PlainCopyPrefix(source: Json, i: nat)
    requires IsObject(source) && WF(source) && i < |source.fields|
    ensures var p := PlainCopy(source).fields;
      && p[i] == (source.fields[i].0, PlainCopy(source.fields[i].1))
      && Lookup(p[..i], source.fields[i].0).None?
      && WF(source.fields[i].1)
  {
    var p := PlainCopy(source).fields;
    assert forall j :: 0 <= j < i ==> p[..i][j].0 == source.fields[j].0;
  }

  /** The date-dropping case written out: merging `{d: date}` into `{}`. */
  lemma MergeDropsDate(time: int)
    ensures MergeAll(EmptyObj, [Obj([("d", Obj([], DateObj(time)))], Plain)])
      == Obj([("d", EmptyObj)], Plain)
  {
    var date := Obj([], DateObj(time));
    var source := Obj([("d", date)], Plain);
    MergeIntoEmpty(source);
    assert PlainCopy(date) == EmptyObj;
    assert PlainCopy(source).fields == [("d", EmptyObj)];
  }

  // ---------------------------------------------------------------------
  // deepClone

  /** The copy `deepClone` makes: arrays and plain objects element by
      element, a date as a new date with the same time (and no own
      properties), and everything else (primitives, null, undefined,
      functions) as the same value. */
  function Clone(v: Json): (r: Json)
    ensures TypeOf(r) == TypeOf(v) && r.Arr? == v.Arr? && IsObject(r) == IsObject(v)
    ensures r.Obj? ==> r.kind == v.kind
    decreases v
  {
    match v
    case Arr(items) => Arr(seq(|items|, i requires 0 <= i < |items| => Clone(items[i])))
    case Obj(fields, Plain) =>
      Obj(seq(|fields|, i requires 0 <= i < |fields| => (fields[i].0, Clone(fields[i].1))), Plain)
    case Obj(_, DateObj(t)) => Obj([], DateObj(t))
    case _ => v
  }

  /** `deepClone`: copies arrays with a loop over the items and plain
      objects with a loop over their own properties. */
  method DeepClone(v: Json) returns (r: Json)
    requires WF(v)
    ensures r == Clone(v)
    decreases v
  {
    if !v.Arr? && !v.Obj? {
      return v;
    }
    if v.Obj? && v.kind.DateObj? {
      return Obj([], DateObj(v.kind.time));
    }
    if v.Arr? {
      var items: seq<Json> := [];
      for i := 0 to |v.items|
        invariant items == Clone(v).items[..i]
      {
        assert WF(v.items[i]);
        var c := DeepClone(v.items[i]);
        TakeSnoc(Clone(v).items, i);
        items := items + [c];
      }
      return Arr(items);
    }
    var fields: seq<(string, Json)> := [];
    for i := 0 to |v.fields|
      invariant fields == Clone(v).fields[..i]
    {
      var key := v.fields[i].0;
      CloneFieldsStep(v, i);
      var c := DeepClone(v.fields[i].1);
      PutFresh(fields, key, c);
      TakeSnoc(Clone(v).fields, i);
      fields := Put(fields, key, c);
    }
    r := Obj(fields, Plain);
  }

  /** The clone's next property is the copy of the next own property, and
      its key is not among those copied before. */
  lemma CloneFieldsStep(v: Json, i: nat)
    requires v.Obj? && v.kind.Plain? && WF(v) && i < |v.fields|
    ensures var cf := Clone(v).fields;
      && Lookup(cf[..i], v.fields[i].0).None?
      && cf[i] == (v.fields[i].0, Clone(v.fields[i].1))
      && WF(v.fields[i].1)
  {
    var cf := Clone(v).fields;
    assert forall j :: 0 <= j < i ==> cf[..i][j].0 == v.fields[j].0;
  }

  /** No date in the tree carries own properties. */
  predicate NoDateProps(v: Json)
    decreases v
  {
    match v
    case Arr(items) => forall i :: 0 <= i < |items| ==> NoDateProps(items[i])
    case Obj(fields, Plain) => forall i :: 0 <= i < |fields| ==> NoDateProps(fields[i].1)
    case Obj(fields, DateObj(_)) => fields == []
    case _ => true
  }

  /** The clone equals the original (as a value) whenever no date carries
      own properties: a deep copy loses nothing else. */
  lemma {:induction false} CloneEqual(v: Json)
    requires NoDateProps(v)
    ensures Clone(v) == v
    decreases v
  {
    match v
    case Arr(items) =>
      forall i | 0 <= i < |items| ensures Clone(items[i]) == items[i] {
        CloneEqual(items[i]);
      }
      assert Clone(v).items == items;
    case Obj(fields, Plain) =>
      forall i | 0 <= i < |fields| ensures Clone(fields[i].1) == fields[i].1 {
        CloneEqual(fields[i].1);
      }
      assert Clone(v).fields == fields;
    case _ =>
  }

  /** A clone has no date with own properties. */
  lemma {:induction false} CloneNoDateProps(v: Json)
    ensures NoDateProps(Clone(v))
    decreases v
  {
    match v
    case Arr(items) =>
      forall i | 0 <= i < |items| ensures NoDateProps(Clone(items[i])) {
        CloneNoDateProps(items[i]);
      }
    case Obj(fields, Plain) =>
      forall i | 0 <= i < |fields| ensures NoDateProps(Clone(fields[i].1)) {
        CloneNoDateProps(fields[i].1);
      }
    case _ =>
  }

  /** Cloning a clone changes nothing. */
  lemma CloneIdempotent(v: Json)
    ensures Clone(Clone(v)) == Clone(v)
  {
    CloneNoDateProps(v);
    CloneEqual(Clone(v));
  }

  /** A clone of a well-formed value is well-formed. */
  lemma {:induction false} CloneWF(v: Json)
    requires WF(v)
    ensures WF(Clone(v))
    decreases v
  {
    match v
    case Arr(items) =>
      forall i | 0 <= i < |items| ensures WF(Clone(items[i])) {
        CloneWF(items[i]);
      }
    case Obj(fields, Plain) =>
      forall i | 0 <= i < |fields| ensures WF(Clone(fields[i].1)) {
        CloneWF(fields[i].1);
      }
    case _ =>
  }

  // ---------------------------------------------------------------------
  // getPaths

  /** The path of a key below a prefix; the empty prefix is falsy, so a
      top-level key stands alone. */
  function JoinPath(prefix: string, key: string): string {
    if prefix == "" then key else prefix + "." + key
  }

  /** The paths `getPaths(obj, prefix)` lists, in order: for each own
      property, its own path and then, when its value is an object, the
      paths below it. */
  function Paths(obj: Json, prefix: string): seq<string>
    requires obj.Obj?
    decreases obj, 2, 0
  {
    PathsFrom(obj, prefix, 0)
  }

  /** The paths of the properties from index i on. */
  function PathsFrom(obj: Json, prefix: string, i: nat): seq<string>
    requires obj.Obj? && i <= |obj.fields|
    decreases obj, 1, |obj.fields| - i
  {
    if i == |obj.fields| then [] else EntryPaths(obj, prefix, i) + PathsFrom(obj, prefix, i + 1)
  }

  /** One more property's paths move from the pending part to the output. */
  lemma PathsFromStep(obj: Json, prefix: string, i: nat, done: seq<string>)
    requires obj.Obj? && i < |obj.fields|
    ensures done + PathsFrom(obj, prefix, i)
         == (done + EntryPaths(obj, prefix, i)) + PathsFrom(obj, prefix, i + 1)
  {
  }

  /** The paths contributed by the property at index i. */
  function EntryPaths(obj: Json, prefix: string, i: nat): seq<string>
    requires obj.Obj? && i < |obj.fields|
    decreases obj, 0, 0
  {
    var path := JoinPath(prefix, obj.fields[i].0);
    var v := obj.fields[i].1;
    [path] + if IsObject(v) then Paths(v, path) else []
  }

  /** `getPaths`: a loop over the own properties that pushes each path and
      then the paths of a nested object. */
  method GetPaths(obj: Json, prefix: string) returns (paths: seq<string>)
    requires obj.Obj?
    ensures paths == Paths(obj, prefix)
    decreases obj
  {
    paths := [];
    for i := 0 to |obj.fields|
      invariant paths + PathsFrom(obj, prefix, i) == Paths(obj, prefix)
    {
      var key := obj.fields[i].0;
      var v := obj.fields[i].1;
      var currentPath := JoinPath(prefix, key);
      var entry := [currentPath];
      if IsObject(v) {
        var sub := GetPaths(v, currentPath);
        entry := entry + sub;
      }
      assert entry == EntryPaths(obj, prefix, i);
      PathsFromStep(obj, prefix, i, paths);
      paths := paths + entry;
    }
  }

  /** A key that survives `path.split('.')` and is not lost to the falsy
      empty prefix: non-empty and without a dot. */
  predicate GoodKey(k: string) { k != "" && '.' !in k }

  predicate AllGood(ks: seq<string>) { forall i :: 0 <= i < |ks| ==> GoodKey(ks[i]) }

  /** Every key of every object in the tree is good. */
  predicate GoodKeys(v: Json)
    decreases v
  {
    v.Obj? ==> forall i :: 0 <= i < |v.fields| ==> GoodKey(v.fields[i].0) && GoodKeys(v.fields[i].1)
  }

  /** A path of keys written as one string. */
  function PathString(ks: seq<string>): string {
    if ks == [] then "" else Join(ks, '.')
  }

  /** ks leads from v through own properties whose values, but for the
      last, are objects. */
  predicate ObjChain(v: Json, ks: seq<string>)
    decreases |ks|
  {
    && v.Obj? && |ks| >= 1 && Lookup(v.fields, ks[0]).Some?
    && (|ks| == 1 || ObjChain(Lookup(v.fields, ks[0]).value, ks[1..]))
  }

  lemma JoinNonEmpty(ks: seq<string>, c: char)
    requires |ks| >= 1 && ks[0] != ""
    ensures Join(ks, c) != ""
  {
    if |ks| > 1 {
      assert Join(ks, c)[0] == ks[0][0];
    }
  }

  /** Extending a path string by one key is extending the path. */
  lemma JoinPathString(pre: seq<string>, k: string)
    requires AllGood(pre) && GoodKey(k)
    ensures JoinPath(PathString(pre), k) == PathString(pre + [k])
  {
    if pre == [] {
      assert pre + [k] == [k];
    } else {
      JoinNonEmpty(pre, '.');
      JoinSnoc(pre, k, '.');
    }
  }

  lemma LookupUnique(fields: seq<(string, Json)>, i: nat)
    requires UniqueKeys(fields) && i < |fields|
    ensures Lookup(fields, fields[i].0) == Some(fields[i].1)
  {
    var j :| 0 <= j < |fields| && fields[j] == (fields[i].0, Lookup(fields, fields[i].0).value);
    assert j == i;
  }

  /** p is the path string of the key chain ks below the prefix keys pre. */
  predicate Listed(obj: Json, pre: seq<string>, ks: seq<string>, p: string) {
    ObjChain(obj, ks) && AllGood(ks) && p == PathString(pre + ks)
  }

  /** Every path listed is the path of a key chain through objects. */
  lemma {:induction false} PathsSound(obj: Json, pre: seq<string>, p: string)
    requires obj.Obj? && WF(obj) && GoodKeys(obj) && AllGood(pre)
    requires p in Paths(obj, PathString(pre))
    ensures exists ks :: Listed(obj, pre, ks, p)
    decreases obj, 2, 0
  {
    PathsFromSound(obj, pre, 0, p);
  }

  lemma {:induction false} PathsFromSound(obj: Json, pre: seq<string>, i: nat, p: string)
    requires obj.Obj? && WF(obj) && GoodKeys(obj) && AllGood(pre) && i <= |obj.fields|
    requires p in PathsFrom(obj, PathString(pre), i)
    ensures exists ks :: Listed(obj, pre, ks, p)
    decreases obj, 1, |obj.fields| - i
  {
    if p in EntryPaths(obj, PathString(pre), i) {
      EntrySound(obj, pre, i, p);
    } else {
      PathsFromSound(obj, pre, i + 1, p);
    }
  }

  lemma {:induction false} EntrySound(obj: Json, pre: seq<string>, i: nat, p: string)
    requires obj.Obj? && WF(obj) && GoodKeys(obj) && AllGood(pre) && i < |obj.fields|
    requires p in EntryPaths(obj, PathString(pre), i)
    ensures exists ks :: Listed(obj, pre, ks, p)
    decreases obj, 0, 0
  {
    var k := obj.fields[i].0;
    var v := obj.fields[i].1;
    assert GoodKey(k) && GoodKeys(v) && WF(v);
    JoinPathString(pre, k);
    LookupUnique(obj.fields, i);
    var path := PathString(pre + [k]);
    if p == path {
      assert Listed(obj, pre, [k], p);
    } else {
      assert IsObject(v) && p in Paths(v, path);
      PathsSound(v, pre + [k], p);
      var ks :| Listed(v, pre + [k], ks, p);
      ListedBelow(obj, pre, k, v, ks, p);
    }
  }

  /** A chain listed below the value of key k extends to one from obj. */
  lemma ListedBelow(obj: Json, pre: seq<string>, k: string, v: Json, ks: seq<string>, p: string)
    requires obj.Obj? && Lookup(obj.fields, k) == Some(v) && GoodKey(k)
    requires Listed(v, pre + [k], ks, p)
    ensures Listed(obj, pre, [k] + ks, p)
  {
    assert (pre + [k]) + ks == pre + ([k] + ks);
    assert ([k] + ks)[0] == k && ([k] + ks)[1..] == ks;
  }

  lemma {:induction false} PathsFromContains(obj: Json, prefix: string, i: nat, j: nat, p: string)
    requires obj.Obj? && i <= j < |obj.fields| && p in EntryPaths(obj, prefix, j)
    ensures p in PathsFrom(obj, prefix, i)
    decreases j - i
  {
    if i < j {
      PathsFromContains(obj, prefix, i + 1, j, p);
    }
  }

  /** Every key chain through objects is listed. */
  lemma {:induction false} PathsComplete(obj: Json, pre: seq<string>, ks: seq<string>)
    requires GoodKeys(obj) && AllGood(pre) && ObjChain(obj, ks)
    ensures PathString(pre + ks) in Paths(obj, PathString(pre))
    decreases obj, 1
  {
    var k := ks[0];
    var v := Lookup(obj.fields, k).value;
    var j :| 0 <= j < |obj.fields| && obj.fields[j] == (k, v);
    EntryComplete(obj, pre, ks, j);
    PathsFromContains(obj, PathString(pre), 0, j, PathString(pre + ks));
  }

  /** A key chain starting with the key at index j is among that
      property's paths. */
  lemma {:induction false} EntryComplete(obj: Json, pre: seq<string>, ks: seq<string>, j: nat)
    requires GoodKeys(obj) && AllGood(pre) && ObjChain(obj, ks)
    requires j < |obj.fields| && obj.fields[j] == (ks[0], Lookup(obj.fields, ks[0]).value)
    ensures PathString(pre + ks) in EntryPaths(obj, PathString(pre), j)
    decreases obj, 0
  {
    var k, v := ks[0], obj.fields[j].1;
    assert GoodKey(k) && GoodKeys(v);
    JoinPathString(pre, k);
    if |ks| == 1 {
      assert pre + ks == pre + [k];
    } else {
      assert AllGood(pre + [k]);
      PathsComplete(v, pre + [k], ks[1..]);
      AppendHeadTail(pre, ks);
    }
  }

  lemma {:induction false} ObjChainResolves(v: Json, ks: seq<string>)
    requires ObjChain(v, ks)
    ensures Resolve(v, ks).Some?
    decreases |ks|
  {
    if |ks| > 1 {
      ObjChainResolves(Lookup(v.fields, ks[0]).value, ks[1..]);
    }
  }

  /** `getPaths(obj)` lists exactly the dotted key chains that lead through
      nested objects, each once, and `get` finds an own property at each of
      them. */
  lemma GetPathsExact(obj: Json, p: string)
    requires obj.Obj? && WF(obj) && GoodKeys(obj)
    ensures p in Paths(obj, "") <==> exists ks :: ObjChain(obj, ks) && AllGood(ks) && p == Join(ks, '.')
    ensures p in Paths(obj, "") ==> Resolve(obj, Split(p, '.')).Some?
    ensures NoDuplicates(Paths(obj, ""))
  {
    PathsNoDuplicates(obj, "");
    if p in Paths(obj, "") {
      var ks := ListedChain(obj, p);
    }
    if exists ks :: ObjChain(obj, ks) && AllGood(ks) && p == Join(ks, '.') {
      var ks :| ObjChain(obj, ks) && AllGood(ks) && p == Join(ks, '.');
      ChainListed(obj, ks);
    }
  }

  /** A listed path is the dotted form of a key chain, and splits back into
      that chain. */
  lemma ListedChain(obj: Json, p: string) returns (ks: seq<string>)
    requires obj.Obj? && WF(obj) && GoodKeys(obj) && p in Paths(obj, "")
    ensures ObjChain(obj, ks) && AllGood(ks) && p == Join(ks, '.')
    ensures Resolve(obj, Split(p, '.')).Some?
  {
    assert PathString([]) == "";
    PathsSound(obj, [], p);
    ks :| Listed(obj, [], ks, p);
    assert [] + ks == ks;
    SplitJoin(ks, '.');
    ObjChainResolves(obj, ks);
  }

  /** Every key chain through objects is listed. */
  lemma ChainListed(obj: Json, ks: seq<string>)
    requires obj.Obj? && GoodKeys(obj) && ObjChain(obj, ks)
    ensures Join(ks, '.') in Paths(obj, "")
  {
    assert PathString([]) == "";
    PathsComplete(obj, [], ks);
    assert [] + ks == ks;
  }

  /** Below a non-empty prefix every path starts with the prefix and a
      dot. */
  lemma {:induction false} PathsPrefixed(obj: Json, prefix: string, q: string)
    requires obj.Obj? && prefix != "" && q in Paths(obj, prefix)
    ensures |q| > |prefix| && q[..|prefix| + 1] == prefix + "."
    decreases obj, 2, 0
  {
    PathsFromPrefixed(obj, prefix, 0, q);
  }

  lemma {:induction false} PathsFromPrefixed(obj: Json, prefix: string, i: nat, q: string)
    requires obj.Obj? && prefix != "" && i <= |obj.fields| && q in PathsFrom(obj, prefix, i)
    ensures |q| > |prefix| && q[..|prefix| + 1] == prefix + "."
    decreases obj, 1, |obj.fields| - i
  {
    if q in EntryPaths(obj, prefix, i) {
      EntryPrefixed(obj, prefix, i, q);
    } else {
      PathsFromPrefixed(obj, prefix, i + 1, q);
    }
  }

  lemma {:induction false} EntryPrefixed(obj: Json, prefix: string, i: nat, q: string)
    requires obj.Obj? && prefix != "" && i < |obj.fields| && q in EntryPaths(obj, prefix, i)
    ensures |q| > |prefix| && q[..|prefix| + 1] == prefix + "."
    decreases obj, 0, 0
  {
    var path := JoinPath(prefix, obj.fields[i].0);
    assert path == (prefix + ".") + obj.fields[i].0;
    assert path[..|prefix| + 1] == prefix + ".";
    if q != path {
      PathsPrefixed(obj.fields[i].1, path, q);
      assert q[..|prefix| + 1] == q[..|path| + 1][..|prefix| + 1];
    }
  }

  /** A property's own path comes first and everything after it lies below
      it: each parent is listed before its children. */
  lemma EntryShape(obj: Json, prefix: string, i: nat)
    requires obj.Obj? && i < |obj.fields|
    ensures var path := JoinPath(prefix, obj.fields[i].0); var e := EntryPaths(obj, prefix, i);
      && e[0] == path
      && (path != "" ==> forall q :: q in e[1..] ==> |q| > |path| && q[..|path| + 1] == path + ".")
  {
    var path := JoinPath(prefix, obj.fields[i].0);
    var e := EntryPaths(obj, prefix, i);
    var v := obj.fields[i].1;
    if path != "" {
      forall q | q in e[1..] ensures |q| > |path| && q[..|path| + 1] == path + "." {
        assert IsObject(v) && q in Paths(v, path);
        PathsPrefixed(v, path, q);
      }
    }
  }

  /** What a property's path starts with below prefix: nothing at the top
      level, otherwise the prefix and a dot. */
  function Lead(prefix: string): string {
    if prefix == "" then "" else prefix + "."
  }

  /** The length of the dot-free run at the start of s. */
  function RunLen(s: string): (n: nat)
    ensures n <= |s|
    ensures '.' !in s[..n]
    ensures n == |s| || s[n] == '.'
  {
    if s == [] || s[0] == '.' then 0 else 1 + RunLen(s[1..])
  }

  /** The key a path names right after `start`: the text up to the next dot. */
  function KeyAt(q: string, start: nat): string
    requires start <= |q|
  {
    q[start..][..RunLen(q[start..])]
  }

  /** A dot-free key followed by nothing or by a dot is read back whole. */
  lemma {:induction false} RunOfKey(k: string, r: string)
    requires '.' !in k && (r == [] || r[0] == '.')
    ensures RunLen(k + r) == |k|
  {
    if k == [] {
      assert k + r == r;
    } else {
      assert (k + r)[0] == k[0] && (k + r)[1..] == k[1..] + r;
      RunOfKey(k[1..], r);
    }
  }

  /** Every path of the property at index i names that property's key
      right after the lead. */
  lemma EntryKey(obj: Json, prefix: string, i: nat, q: string)
    requires obj.Obj? && i < |obj.fields| && GoodKey(obj.fields[i].0)
    requires q in EntryPaths(obj, prefix, i)
    ensures |Lead(prefix)| <= |q| && KeyAt(q, |Lead(prefix)|) == obj.fields[i].0
  {
    var k, lead := obj.fields[i].0, Lead(prefix);
    var path := JoinPath(prefix, k);
    assert path == lead + k;
    EntryShape(obj, prefix, i);
    assert |path| <= |q| && q[..|path|] == path by {
      if q != path {
        assert q in EntryPaths(obj, prefix, i)[1..];
        assert q[..|path|] == q[..|path| + 1][..|path|];
      }
    }
    var r := q[|path|..];
    assert r == [] || r[0] == '.' by {
      if q != path {
        assert q in EntryPaths(obj, prefix, i)[1..];
        assert r[0] == q[..|path| + 1][|path|];
      }
    }
    assert q[|lead|..] == k + r;
    RunOfKey(k, r);
  }

  /** The paths of the properties from index i on name one of their keys. */
  lemma {:induction false} PathsFromKeys(obj: Json, prefix: string, i: nat, q: string)
    requires obj.Obj? && GoodKeys(obj) && i <= |obj.fields|
    requires q in PathsFrom(obj, prefix, i)
    ensures |Lead(prefix)| <= |q|
    ensures exists m :: i <= m < |obj.fields| && KeyAt(q, |Lead(prefix)|) == obj.fields[m].0
    decreases |obj.fields| - i
  {
    if q in EntryPaths(obj, prefix, i) {
      EntryKey(obj, prefix, i, q);
    } else {
      PathsFromKeys(obj, prefix, i + 1, q);
    }
  }

  /** With distinct keys, no later property's path names the key at i. */
  lemma LaterKeys(obj: Json, prefix: string, i: nat)
    requires obj.Obj? && GoodKeys(obj) && UniqueKeys(obj.fields) && i < |obj.fields|
    ensures forall q :: q in PathsFrom(obj, prefix, i + 1) ==>
      |Lead(prefix)| <= |q| && KeyAt(q, |Lead(prefix)|) != obj.fields[i].0
  {
    forall q | q in PathsFrom(obj, prefix, i + 1)
      ensures |Lead(prefix)| <= |q| && KeyAt(q, |Lead(prefix)|) != obj.fields[i].0
    {
      PathsFromKeys(obj, prefix, i + 1, q);
    }
  }

  /** Below objects with distinct, dot-free, non-empty keys, `getPaths`
      lists every path once. */
  lemma {:induction false} PathsNoDuplicates(obj: Json, prefix: string)
    requires obj.Obj? && WF(obj) && GoodKeys(obj)
    ensures NoDuplicates(Paths(obj, prefix))
    decreases obj, 2, 0
  {
    PathsFromNoDuplicates(obj, prefix, 0);
  }

  lemma {:induction false} PathsFromNoDuplicates(obj: Json, prefix: string, i: nat)
    requires obj.Obj? && WF(obj) && GoodKeys(obj) && i <= |obj.fields|
    ensures NoDuplicates(PathsFrom(obj, prefix, i))
    decreases obj, 1, |obj.fields| - i
  {
    if i < |obj.fields| {
      var e, rest := EntryPaths(obj, prefix, i), PathsFrom(obj, prefix, i + 1);
      EntryNoDuplicates(obj, prefix, i);
      PathsFromNoDuplicates(obj, prefix, i + 1);
      LaterKeys(obj, prefix, i);
      forall q | q in e ensures q !in rest {
        EntryKey(obj, prefix, i, q);
      }
      NoDuplicatesAppend(e, rest);
    }
  }

  lemma {:induction false} EntryNoDuplicates(obj: Json, prefix: string, i: nat)
    requires obj.Obj? && WF(obj) && GoodKeys(obj) && i < |obj.fields|
    ensures NoDuplicates(EntryPaths(obj, prefix, i))
    decreases obj, 0, 0
  {
    var k, v := obj.fields[i].0, obj.fields[i].1;
    var path := JoinPath(prefix, k);
    assert GoodKey(k) && GoodKeys(v) && WF(v);
    if IsObject(v) {
      var below := Paths(v, path);
      PathsNoDuplicates(v, path);
      forall q | q in below ensures q !in [path] {
        PathsPrefixed(v, path, q);
      }
      NoDuplicatesAppend([path], below);
    } else {
      assert EntryPaths(obj, prefix, i) == [path];
    }
  }

  /** Merging `{d: x}` into `{c: w}` adds the key. */
  lemma MergeAddsKey(c: string, w: Json, d: string, x: Json)
    requires c != d && !IsObject(x)
    ensures MergeInto(Obj([(c, w)], Plain), Obj([(d, x)], Plain)) == Obj([(c, w), (d, x)], Plain)
  {
    var source := Obj([(d, x)], Plain);
    assert Put([(c, w)], d, x) == [(c, w), (d, x)];
    assert MergeFrom([(c, w)], source, 0) == MergeFrom([(c, w), (d, x)], source, 1);
  }

  /** A nested merge such as `merge({a: 1, b: {c: 2}}, {b: {d: 3}, e: 4})`:
      nested objects merge key by key, a target-only key stays, a new key
      goes last. */
  lemma MergeExample(a: string, b: string, c: string, d: string, e: string, va: Json, vc: Json, vd: Json, ve: Json)
    requires a != b && a != e && b != e && c != d
    requires !IsObject(vd) && !IsObject(ve)
    ensures MergeAll(Obj([(a, va), (b, Obj([(c, vc)], Plain))], Plain),
                     [Obj([(b, Obj([(d, vd)], Plain)), (e, ve)], Plain)])
      == Obj([(a, va), (b, Obj([(c, vc), (d, vd)], Plain)), (e, ve)], Plain)
  {
    var t := Obj([(a, va), (b, Obj([(c, vc)], Plain))], Plain);
    var s := Obj([(b, Obj([(d, vd)], Plain)), (e, ve)], Plain);
    MergeExampleFields(a, b, c, d, e, va, vc, vd, ve);
    assert MergeAll(t, [s]) == MergeInto(t, s);
  }

  lemma MergeExampleFields(a: string, b: string, c: string, d: string, e: string, va: Json, vc: Json, vd: Json, ve: Json)
    requires a != b && a != e && b != e && c != d
    requires !IsObject(vd) && !IsObject(ve)
    ensures MergeFrom([(a, va), (b, Obj([(c, vc)], Plain))], Obj([(b, Obj([(d, vd)], Plain)), (e, ve)], Plain), 0)
      == [(a, va), (b, Obj([(c, vc), (d, vd)], Plain)), (e, ve)]
  {
    var s := Obj([(b, Obj([(d, vd)], Plain)), (e, ve)], Plain);
    MergeExampleNested(a, b, c, d, va, vc, vd, s);
    MergeExampleNew((a, va), (b, Obj([(c, vc), (d, vd)], Plain)), e, ve, s);
  }

  /** First source key of the example: the nested object under b merges. */
  lemma MergeExampleNested(a: string, b: string, c: string, d: string, va: Json, vc: Json, vd: Json, s: Json)
    requires a != b && c != d && !IsObject(vd)
    requires s.Obj? && |s.fields| >= 1 && s.fields[0] == (b, Obj([(d, vd)], Plain))
    ensures MergeFrom([(a, va), (b, Obj([(c, vc)], Plain))], s, 0)
      == MergeFrom([(a, va), (b, Obj([(c, vc), (d, vd)], Plain))], s, 1)
  {
    var inner := Obj([(c, vc)], Plain);
    var sb := Obj([(d, vd)], Plain);
    var merged := Obj([(c, vc), (d, vd)], Plain);
    MergeAddsKey(c, vc, d, vd);
    assert MergedValue(Some(inner), sb) == merged;
    assert Put([(a, va), (b, inner)], b, merged) == [(a, va), (b, merged)];
  }

  /** Second source key of the example: a key the target lacks goes last. */
  lemma MergeExampleNew(x1: (string, Json), x2: (string, Json), e: string, ve: Json, s: Json)
    requires x1.0 != e && x2.0 != e && !IsObject(ve)
    requires s.Obj? && |s.fields| == 2 && s.fields[1] == (e, ve)
    ensures MergeFrom([x1, x2], s, 1) == [x1, x2, (e, ve)]
  {
    var f1 := [x1, x2];
    assert Lookup(f1, e).None?;
    PutFresh(f1, e, ve);
    assert f1 + [(e, ve)] == [x1, x2, (e, ve)];
    MergeFromStep(f1, s, 1, ve);
  }
}
