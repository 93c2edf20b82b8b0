/** The `Wilson` store handle: one namespace, one JSON document in a file.
    The file is the field `doc` (what `JSON.parse` of its text returns) and
    the ghost counter `writes` counts the calls to `writeFileSync`. Every
    operation re-reads the document, and the mutating ones go through
    `Write`, which skips the file when nothing changes. */
module Store {
  import opened Json
  import opened Protocol
  import opened Display
  import opened Enumeration

  /** One (key, value) pair of an enumeration. */
  datatype Item = Item(key: string, value: Value)

  /** The hint `Symbol.toPrimitive` is called with. */
  datatype Hint = Default | NumberHint | StringHint

  /** What `Symbol.toPrimitive` returns: a string or a number. */
  datatype Primitive = PString(s: string) | PNumber(n: int)

  /** `ks` names every key of `d` exactly once. */
  ghost predicate IsListing(ks: seq<string>, d: Document) {
    && (forall i, j :: 0 <= i < j < |ks| ==> ks[i] != ks[j])
    && (forall k :: k in d <==> k in ks)
  }

  /** `Object.keys` of a document: each key once, in one fixed order. */
  function Listing(d: Document): (ks: seq<string>)
    ensures IsListing(ks, d)
    ensures |ks| == |d|
  {
    Enumerate(d.Keys)
  }

  function KeysOf(items: seq<Item>): seq<string> {
    seq(|items|, i requires 0 <= i < |items| => items[i].key)
  }

  function ValuesOf(items: seq<Item>): seq<Value> {
    seq(|items|, i requires 0 <= i < |items| => items[i].value)
  }

  function PairsOf(items: seq<Item>): seq<(string, Value)> {
    seq(|items|, i requires 0 <= i < |items| => (items[i].key, items[i].value))
  }

  /** `items` lists every member of `d` exactly once, with its value. */
  ghost predicate IsItemListing(items: seq<Item>, d: Document) {
    && IsListing(KeysOf(items), d)
    && (forall i :: 0 <= i < |items| ==> items[i].key in d && items[i].value == d[items[i].key])
  }

  /** `Object.entries` of a document, as items: the keys of `Listing(d)`,
      in that order, each with its value. */
  function ItemsOf(d: Document): (items: seq<Item>)
    ensures IsItemListing(items, d)
    ensures KeysOf(items) == Listing(d)
  {
    var ks := Listing(d);
    var items := seq(|ks|, i requires 0 <= i < |ks| => Item(ks[i], d[ks[i]]));
    assert KeysOf(items) == ks;
    items
  }

  /** `list()`, `values()` and `entries()` line up position by position:
      the i-th value and the i-th pair belong to the i-th listed key. */
  lemma EnumerationsAgree(d: Document)
    ensures |ValuesOf(ItemsOf(d))| == |PairsOf(ItemsOf(d))| == |Listing(d)| == |d|
    ensures forall i :: 0 <= i < |Listing(d)| ==>
      && Listing(d)[i] in d
      && ValuesOf(ItemsOf(d))[i] == d[Listing(d)[i]]
      && PairsOf(ItemsOf(d))[i] == (Listing(d)[i], d[Listing(d)[i]])
  {
  }

  /** The body of the `values()` generator: `yield item.value` for each
      item, in order. */
  method YieldValues(items: seq<Item>) returns (vs: seq<Value>)
    ensures |vs| == |items|
    ensures forall i :: 0 <= i < |items| ==> vs[i] == items[i].value
  {
    vs := [];
    for i := 0 to |items|
      invariant |vs| == i
      invariant forall j :: 0 <= j < i ==> vs[j] == items[j].value
    {
      vs := vs + [items[i].value];
    }
  }

  /** The body of the `entries()` generator: `yield [key, value]` for each
      entry, in order. */
  method YieldPairs(items: seq<Item>) returns (es: seq<(string, Value)>)
    ensures |es| == |items|
    ensures forall i :: 0 <= i < |items| ==> es[i] == (items[i].key, items[i].value)
  {
    es := [];
    for i := 0 to |items|
      invariant |es| == i
      invariant forall j :: 0 <= j < i ==> es[j] == (items[j].key, items[j].value)
    {
      es := es + [(items[i].key, items[i].value)];
    }
  }

  class Wilson {
    const namespace: string
    /** The document the namespace's file holds. */
    var doc: Document
    /** How many times the file has been rewritten through this handle. */
    ghost var writes: nat

    /** The file always holds what `JSON.stringify` wrote: no `undefined`
        anywhere. */
    ghost predicate Valid()
      reads this
    {
      IsStored(doc)
    }

    /** A handle on `namespace`, whose file currently holds `stored`. */
    constructor (namespace: string, stored: Document)
      requires IsStored(stored)
      ensures Valid()
      ensures this.namespace == namespace && doc == stored && writes == 0
    {
      this.namespace := namespace;
      doc := stored;
      writes := 0;
    }

    /** `read()`: the parsed document. */
    method Read() returns (data: Document)
      ensures data == doc
    {
      data := doc;
    }

    /** `write(data)`: persist `data` unless it serialises like the document
        already in the file. */
    method Write(data: Document)
      requires Valid()
      modifies this
      ensures Valid()
      ensures var s := WriteStep(old(doc), data);
        doc == s.doc && writes == old(writes) + s.writes
    {
      var existing := Read();
      if existing == Persist(data) {
        return;
      }
      doc := Persist(data);
      writes := writes + 1;
    }

    /** `exec(io)`: read, transform, write. */
    method Exec(io: Document -> Document)
      requires Valid()
      modifies this
      ensures Valid()
      ensures var s := ExecStep(old(doc), io);
        doc == s.doc && writes == old(writes) + s.writes
    {
      var data := Read();
      Write(io(data));
    }

    /** `get(key)`: the member's value, `undefined` when there is none. */
    method Get(key: string) returns (item: Value)
      ensures key in doc ==> item == doc[key]
      ensures key !in doc ==> item == Undefined
    {
      var data := Read();
      item := Lookup(data, key);
    }

    /** `put(key, value, {ifNotExists})`. */
    method Put(key: string, value: Value, ifNotExists: bool) returns (failure: Option<Failure>)
      requires Valid()
      modifies this
      ensures Valid()
      ensures var s := PutStep(old(doc), key, value, ifNotExists);
        doc == s.doc && writes == old(writes) + s.writes && failure == s.failure
    {
      var item := Get(key);
      if Truthy(item) {
        if StrictEq(item, value) {
          return None;
        }
        if ifNotExists {
          return Some(AlreadyExists(key));
        }
      }
      Exec(data => data[key := value]);
      failure := None;
    }

    /** `cas(key, compare, set)`: throws when the current value is truthy and
        strictly equal to `compare`, otherwise sets the key. */
    method Cas(key: string, compare: Value, setTo: Value) returns (failure: Option<Failure>)
      requires Valid()
      modifies this
      ensures Valid()
      ensures var s := CasStep(old(doc), CasOperation(key, compare, setTo));
        doc == s.doc && writes == old(writes) + s.writes && failure == s.failure
    {
      var item := Get(key);
      if Truthy(item) && StrictEq(item, compare) {
        return Some(AlreadyIs(key, compare));
      }
      Exec(data => data[key := setTo]);
      failure := None;
    }

    /** `casMulti(operations)`: `cas` on each in order, stopping at the first
        error without undoing the ones before it. */
    method CasMulti(ops: seq<CasOperation>) returns (failure: Option<Failure>)
      requires Valid()
      modifies this
      ensures Valid()
      ensures var s := CasMultiStep(old(doc), ops);
        doc == s.doc && writes == old(writes) + s.writes && failure == s.failure
    {
      ghost var target := CasMultiStep(doc, ops);
      for i := 0 to |ops|
        invariant Valid()
        invariant CasMultiStep(doc, ops[i..]).doc == target.doc
        invariant writes + CasMultiStep(doc, ops[i..]).writes == old(writes) + target.writes
        invariant CasMultiStep(doc, ops[i..]).failure == target.failure
      {
        var op := ops[i];
        assert ops[i..][0] == op && ops[i..][1..] == ops[i + 1..];
        failure := Cas(op.key, op.compare, op.setTo);
        if failure.Some? {
          return;
        }
      }
      failure := None;
    }

    /** `delete(key)`. */
    method Delete(key: string)
      requires Valid()
      modifies this
      ensures Valid()
      ensures var s := DeleteStep(old(doc), key);
        doc == s.doc && writes == old(writes) + s.writes
    {
      Exec((data: Document) => data - {key});
    }

    /** `clear()`: empty the document and return what it held. */
    method Clear() returns (previous: Document)
      requires Valid()
      modifies this
      ensures Valid()
      ensures previous == old(doc)
      ensures var s := ClearStep(old(doc));
        doc == s.doc && writes == old(writes) + s.writes
    {
      previous := Read();
      Write(map[]);
    }

    /** `has(key)`: `data.hasOwnProperty(key)`. True for a member holding
        `null`. Once the document has its own member `hasOwnProperty`, that
        member (a JSON value, never a function) shadows the inherited method
        and the call throws a TypeError, whatever `key` is. */
    method Has(key: string) returns (present: bool, failure: Option<Failure>)
      ensures "hasOwnProperty" in doc ==> failure == Some(NotAFunction("hasOwnProperty"))
      ensures "hasOwnProperty" !in doc ==> failure == None && (present <==> key in doc)
    {
      var data := Read();
      if "hasOwnProperty" in data {
        return false, Some(NotAFunction("hasOwnProperty"));
      }
      present, failure := key in data, None;
    }

    /** `list()` (and the `keys()` iterator): `Object.keys` of the document. */
    method List() returns (ks: seq<string>)
      ensures ks == Listing(doc)
      ensures IsListing(ks, doc)
    {
      var data := Read();
      ks := Listing(data);
    }

    /** `count()`: the length of `list()`. */
    method Count() returns (n: nat)
      ensures n == |doc|
      ensures n == |Listing(doc)|
    {
      var ks := List();
      n := |ks|;
    }

    /** `items()`: `Object.entries` of the document as items, in `list()`
        order. */
    method Items() returns (items: seq<Item>)
      ensures items == ItemsOf(doc)
      ensures KeysOf(items) == Listing(doc)
    {
      var data := Read();
      items := ItemsOf(data);
    }

    /** `values()`: the values of `items()`, in that order. */
    method Values() returns (vs: seq<Value>)
      ensures vs == ValuesOf(ItemsOf(doc))
    {
      var items := Items();
      vs := YieldValues(items);
    }

    /** `entries()` (and the `Symbol.iterator` / `Symbol.asyncIterator`
        iterators): `Object.entries` of the document, in `list()` order. */
    method Entries() returns (es: seq<(string, Value)>)
      ensures es == PairsOf(ItemsOf(doc))
    {
      var items := Items();
      es := YieldPairs(items);
    }

    /** `transact(key, io)`: when the current value is truthy, `cas(key,
        undefined, io(current))`, which cannot throw; `applied` is false when
        the source returns `undefined`. */
    method Transact(key: string, io: Value -> Value) returns (applied: bool)
      requires Valid()
      modifies this
      ensures Valid()
      ensures applied <==> Truthy(Lookup(old(doc), key))
      ensures var s := TransactStep(old(doc), key, io);
        doc == s.doc && writes == old(writes) + s.writes
    {
      var item := Get(key);
      if Truthy(item) {
        var o := io(item);
        var _ := Cas(key, Undefined, o);
        applied := true;
      } else {
        applied := false;
      }
    }

    /** `transactMulti(keys, io)`: `transact` on each key in order. */
    method TransactMulti(keys: seq<string>, io: Value -> Value)
      requires Valid()
      modifies this
      ensures Valid()
      ensures var s := TransactMultiStep(old(doc), keys, io);
        doc == s.doc && writes == old(writes) + s.writes
    {
      ghost var target := TransactMultiStep(doc, keys, io);
      for i := 0 to |keys|
        invariant Valid()
        invariant TransactMultiStep(doc, keys[i..], io).doc == target.doc
        invariant writes + TransactMultiStep(doc, keys[i..], io).writes == old(writes) + target.writes
      {
        assert keys[i..][0] == keys[i] && keys[i..][1..] == keys[i + 1..];
        var _ := Transact(keys[i], io);
      }
    }

    /** `toString()` (and `Symbol.toStringTag`). */
    method ToString() returns (s: string)
      ensures s == Describe(namespace, |doc|)
    {
      var n := Count();
      s := Describe(namespace, n);
    }

    /** `Symbol.toPrimitive`: the count for a numeric hint, the description
        otherwise. */
    method ToPrimitive(hint: Hint) returns (p: Primitive)
      ensures hint == NumberHint ==> p == PNumber(|doc|)
      ensures hint != NumberHint ==> p == PString(Describe(namespace, |doc|))
    {
      match hint
      case Default =>
        var s := ToString();
        p := PString(s);
      case StringHint =>
        var s := ToString();
        p := PString(s);
      case NumberHint =>
        var n := Count();
        p := PNumber(n);
    }
  }
}
