/** JavaScript values as the store sees them: what `JSON.parse` can produce,
    plus `undefined`, and the three pieces of JavaScript semantics that the
    store's guards and its persistence depend on: ToBoolean (`if (item)`),
    strict equality (`===`) and the `JSON.stringify`/`JSON.parse` round trip
    that every write goes through. */
module Json {

  /** A JavaScript value of the store's `Value` type. Numbers are modelled as
      integers (no NaN, no -0, no fractions). */
  datatype Value =
    | Str(s: string)
    | Num(n: int)
    | Bool(b: bool)
    | Null
    | Obj(fields: map<string, Value>)
    | Arr(elems: seq<Value>)
    | Undefined

  /** A namespace's document: a flat mapping from property name to value. */
  type Document = map<string, Value>

  /** ECMAScript ToBoolean (section 7.1.2 of ECMA-262) restricted to `Value`:
      exactly the five values below are falsy; objects and arrays, even empty
      ones, are truthy. */
  function Truthy(v: Value): (r: bool)
    ensures r <==> v !in {Undefined, Null, Bool(false), Num(0), Str("")}
  {
    match v
    case Str(s) => s != ""
    case Num(n) => n != 0
    case Bool(b) => b
    case Null => false
    case Obj(_) => true
    case Arr(_) => true
    case Undefined => false
  }

  /** Strict equality `a === b` between a value read back from the document
      and a caller's value. Primitives compare by value; an object or array
      read from the document is always a freshly parsed one, so it is never
      the same reference as anything the caller holds. */
  function StrictEq(a: Value, b: Value): (r: bool)
    ensures r <==> a == b && !a.Obj? && !a.Arr?
  {
    match (a, b)
    case (Str(x), Str(y)) => x == y
    case (Num(x), Num(y)) => x == y
    case (Bool(x), Bool(y)) => x == y
    case (Null, Null) => true
    case (Undefined, Undefined) => true
    case _ => false
  }

  /** A value that can come out of `JSON.parse`: `undefined` occurs nowhere
      inside it. */
  predicate Clean(v: Value) {
    match v
    case Obj(m) => forall k :: k in m ==> Clean(m[k])
    case Arr(s) => forall i :: 0 <= i < |s| ==> Clean(s[i])
    case Undefined => false
    case _ => true
  }

  /** A document as it can sit in the file: every member value is clean. */
  predicate IsStored(d: Document) {
    forall k :: k in d ==> Clean(d[k])
  }

  /** `JSON.parse(JSON.stringify(v))` for a value that is serialised as an
      object member or array element: members whose value is `undefined` are
      omitted (SerializeJSONObject) and `undefined` array elements become
      `null` (SerializeJSONArray). `undefined` itself is left as it is; its
      callers drop it. */
  function Normalize(v: Value): (r: Value)
    ensures v != Undefined ==> Clean(r)
  {
    match v
    case Obj(m) => Obj(map k | k in m && m[k] != Undefined :: Normalize(m[k]))
    case Arr(s) => Arr(seq(|s|, i requires 0 <= i < |s| => if s[i] == Undefined then Null else Normalize(s[i])))
    case _ => v
  }

  /** The document that the file holds after `writeFileSync(path,
      JSON.stringify(data, null, 2))`, as the next `JSON.parse` returns it. */
  function Persist(data: Document): (r: Document)
    ensures IsStored(r)
    ensures forall k :: k in r <==> k in data && data[k] != Undefined
  {
    map k | k in data && data[k] != Undefined :: Normalize(data[k])
  }

  /** Serialising and parsing again changes nothing in a value that already
      came out of `JSON.parse`. */
  lemma {:induction false} NormalizeFixes(v: Value)
    requires Clean(v)
    ensures Normalize(v) == v
  {
    match v
    case Obj(m) =>
      forall k | k in m ensures m[k] != Undefined && Normalize(m[k]) == m[k] {
        NormalizeFixes(m[k]);
      }
      assert Normalize(v).fields == m;
    case Arr(s) =>
      forall i | 0 <= i < |s| ensures s[i] != Undefined && Normalize(s[i]) == s[i] {
        NormalizeFixes(s[i]);
      }
      assert Normalize(v).elems == s;
    case _ =>
  }

  /** Normalising twice is normalising once. */
  lemma NormalizeIdempotent(v: Value)
    ensures Normalize(Normalize(v)) == Normalize(v)
  {
    if v != Undefined {
      NormalizeFixes(Normalize(v));
    }
  }

  /** Rewriting a stored document unchanged leaves it as it was. */
  lemma PersistFixes(d: Document)
    requires IsStored(d)
    ensures Persist(d) == d
  {
    forall k | k in d ensures d[k] != Undefined && Normalize(d[k]) == d[k] {
      NormalizeFixes(d[k]);
    }
  }

  /** Persisting is idempotent: a second write of what was just read back
      stores the same document. */
  lemma PersistIdempotent(data: Document)
    ensures Persist(Persist(data)) == Persist(data)
  {
    PersistFixes(Persist(data));
  }

  /** `data[key] = value` on a stored document, then persisted: the key is
      set to the normalised value, or removed when the value is `undefined`;
      every other member is kept as it was. */
  lemma PersistAssign(d: Document, key: string, v: Value)
    requires IsStored(d)
    ensures Persist(d[key := v]) == if v == Undefined then d - {key} else d[key := Normalize(v)]
  {
    PersistFixes(d);
    var r := Persist(d[key := v]);
    forall k | k in d && k != key ensures k in r && r[k] == d[k] {
      assert r[k] == Normalize(d[k]);
    }
  }

  /** `delete data[key]` on a stored document, then persisted: exactly the
      key is gone. */
  lemma PersistRemove(d: Document, key: string)
    requires IsStored(d)
    ensures Persist(d - {key}) == d - {key}
  {
    PersistFixes(d - {key});
  }
}
