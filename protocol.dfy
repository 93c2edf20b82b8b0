/** What each operation of the store does to the document in the file, as a
    function of the document it reads: the document afterwards, how many
    times the file is rewritten, and the error it throws, if any. The class
    `Store.Wilson` is proved to follow these functions; the lemmas here state
    the conditional-update protocol (put, cas, casMulti, transact,
    transactMulti) in terms of them. */
module Protocol {
  import opened Json

  datatype Option<+T> = None | Some(value: T)

  /** The errors the store throws: `put` with `ifNotExists` finding a
      different truthy value ("<key> already exists"), `cas` finding the
      current value strictly equal to `compare` ("<key> is already <compare>"),
      and the TypeError of calling a stored member that shadows the inherited
      method `member` ("data.<member> is not a function"). */
  datatype Failure =
    | AlreadyExists(key: string)
    | AlreadyIs(key: string, compare: Value)
    | NotAFunction(member: string)

  /** One element of `casMulti`'s argument. The three declared shapes are
      this record with `set` undefined (CasDeleteIfEquals), with `compare`
      undefined (CasSetIfNotExists), or with both given (CasCompareAndSwap). */
  datatype CasOperation = CasOperation(key: string, compare: Value, setTo: Value)

  /** The effect of one operation on the file. */
  datatype Step = Step(doc: Document, writes: nat, failure: Option<Failure>)

  /** `data[key]` on a parsed document: the member, or `undefined`. */
  function Lookup(d: Document, key: string): Value {
    if key in d then d[key] else Undefined
  }

  /** One step and then another: the second's document and failure, the
      writes of both. */
  function Then(a: Step, b: Step): Step {
    Step(b.doc, a.writes + b.writes, b.failure)
  }

  /** `write(data)` against the current document `d`: nothing is written
      when the serialisations agree. */
  function WriteStep(d: Document, data: Document): Step {
    var next := Persist(data);
    Step(next, if next == d then 0 else 1, None)
  }

  /** `exec(io)`: write the transformer's result on the current snapshot. */
  function ExecStep(d: Document, io: Document -> Document): Step {
    WriteStep(d, io(d))
  }

  function PutStep(d: Document, key: string, value: Value, ifNotExists: bool): Step {
    var item := Lookup(d, key);
    if Truthy(item) && StrictEq(item, value) then Step(d, 0, None)
    else if Truthy(item) && ifNotExists then Step(d, 0, Some(AlreadyExists(key)))
    else WriteStep(d, d[key := value])
  }

  function CasStep(d: Document, op: CasOperation): Step {
    var item := Lookup(d, op.key);
    if Truthy(item) && StrictEq(item, op.compare) then Step(d, 0, Some(AlreadyIs(op.key, op.compare)))
    else WriteStep(d, d[op.key := op.setTo])
  }

  /** `casMulti(ops)`: `cas` on each operation in order; the first error
      stops the loop and propagates, and what was written before it stays. */
  function CasMultiStep(d: Document, ops: seq<CasOperation>): Step
    decreases |ops|
  {
    if ops == [] then Step(d, 0, None)
    else
      var first := CasStep(d, ops[0]);
      if first.failure.Some? then first
      else Then(first, CasMultiStep(first.doc, ops[1..]))
  }

  function DeleteStep(d: Document, key: string): Step {
    WriteStep(d, d - {key})
  }

  function ClearStep(d: Document): Step {
    WriteStep(d, map[])
  }

  /** `transact(key, io)`: nothing when the current value is falsy, otherwise
      `cas(key, undefined, io(current))`. */
  function TransactStep(d: Document, key: string, io: Value -> Value): Step {
    var item := Lookup(d, key);
    if Truthy(item) then CasStep(d, CasOperation(key, Undefined, io(item)))
    else Step(d, 0, None)
  }

  /** `transactMulti(keys, io)`: `transact` on each key in order. */
  function TransactMultiStep(d: Document, keys: seq<string>, io: Value -> Value): Step
    decreases |keys|
  {
    if keys == [] then Step(d, 0, None)
    else
      var first := TransactStep(d, keys[0], io);
      Then(first, TransactMultiStep(first.doc, keys[1..], io))
  }

  // ---------------------------------------------------------------- write

  /** After `write(data)` the file holds `data` without its undefined
      members, other values unchanged when they are already JSON values; it
      is rewritten exactly when that differs from what it held. Writing back
      a snapshot never rewrites the file. */
  lemma WriteStepSpec(d: Document, data: Document)
    ensures var s := WriteStep(d, data);
      && s.failure == None
      && IsStored(s.doc)
      && (forall k :: k in s.doc <==> k in data && data[k] != Undefined)
      && (forall k :: k in s.doc && Clean(data[k]) ==> s.doc[k] == data[k])
      && (s.writes == 0 <==> s.doc == d)
      && (IsStored(d) && data == d ==> s.writes == 0)
  {
    var s := WriteStep(d, data);
    forall k | k in s.doc && Clean(data[k]) ensures s.doc[k] == data[k] {
      NormalizeFixes(data[k]);
    }
    if IsStored(d) && data == d {
      PersistFixes(d);
    }
  }

  // ------------------------------------------------------------------ put

  /** `put` of a value strictly equal to a truthy current value returns at
      once: no change, no write, no error, whatever the options. */
  lemma PutNoOp(d: Document, key: string, value: Value, ifNotExists: bool)
    requires Truthy(Lookup(d, key)) && StrictEq(Lookup(d, key), value)
    ensures PutStep(d, key, value, ifNotExists) == Step(d, 0, None)
  {
  }

  /** `put` fails exactly when `ifNotExists` is set and the current value is
      truthy and not strictly equal to the new one; then it throws "already
      exists" and the document is untouched. A falsy current value (0, false,
      "", null, absent) never makes `put` fail. */
  lemma PutFailsIff(d: Document, key: string, value: Value, ifNotExists: bool)
    ensures var s := PutStep(d, key, value, ifNotExists);
      && (s.failure.Some? <==> ifNotExists && Truthy(Lookup(d, key)) && !StrictEq(Lookup(d, key), value))
      && (s.failure.Some? ==> s == Step(d, 0, Some(AlreadyExists(key))))
  {
  }

  /** A `put` that does not fail leaves `key` holding the value as it reads
      back from the file (absent when the value is undefined) and every other
      key as it was. */
  lemma PutSets(d: Document, key: string, value: Value, ifNotExists: bool)
    requires IsStored(d)
    requires PutStep(d, key, value, ifNotExists).failure == None
    ensures var s := PutStep(d, key, value, ifNotExists);
      && IsStored(s.doc)
      && Lookup(s.doc, key) == Normalize(value)
      && (key in s.doc <==> value != Undefined)
      && (forall k :: k != key ==> Lookup(s.doc, k) == Lookup(d, k))
  {
    var item := Lookup(d, key);
    if Truthy(item) && StrictEq(item, value) {
      NormalizeFixes(value);
    } else {
      PersistAssign(d, key, value);
    }
  }

  /** With `ifNotExists`, a stored falsy value is still overwritten: the guard
      tests truthiness, not presence. */
  lemma PutOverwritesFalsy(d: Document, key: string, value: Value)
    requires IsStored(d) && key in d && !Truthy(d[key])
    ensures var s := PutStep(d, key, value, true);
      && s.failure == None
      && Lookup(s.doc, key) == Normalize(value)
      && (s.writes == 0 <==> Normalize(value) == d[key])
  {
    PutSets(d, key, value, true);
    PersistAssign(d, key, value);
    if value == Undefined {
      assert key !in Persist(d[key := value]);
    }
  }

  // ------------------------------------------------------------------ cas

  /** `cas` throws "is already <compare>" exactly when the current value is
      truthy and strictly equal to `compare`, and then changes nothing. */
  lemma CasFailsIff(d: Document, op: CasOperation)
    ensures var s := CasStep(d, op);
      && (s.failure.Some? <==> Truthy(Lookup(d, op.key)) && StrictEq(Lookup(d, op.key), op.compare))
      && (s.failure.Some? ==> s == Step(d, 0, Some(AlreadyIs(op.key, op.compare))))
  {
  }

  /** In every other case `cas` overwrites `key` with `set` (removing it when
      `set` is undefined) and leaves every other key as it was. */
  lemma CasSets(d: Document, op: CasOperation)
    requires IsStored(d)
    requires CasStep(d, op).failure == None
    ensures var s := CasStep(d, op);
      && IsStored(s.doc)
      && Lookup(s.doc, op.key) == Normalize(op.setTo)
      && (op.key in s.doc <==> op.setTo != Undefined)
      && (forall k :: k != op.key ==> Lookup(s.doc, k) == Lookup(d, k))
  {
    PersistAssign(d, op.key, op.setTo);
  }

  /** The CasSetIfNotExists shape (`compare` undefined) never fails, so it
      overwrites a key that already holds a value. */
  lemma CasSetIfNotExistsOverwrites(d: Document, key: string, setTo: Value)
    requires IsStored(d)
    ensures var s := CasStep(d, CasOperation(key, Undefined, setTo));
      && s.failure == None
      && Lookup(s.doc, key) == Normalize(setTo)
  {
    CasSets(d, CasOperation(key, Undefined, setTo));
  }

  /** The CasDeleteIfEquals shape (`set` undefined) removes the key exactly
      when the current value is NOT a truthy value strictly equal to
      `compare`; when it is, it fails and the key stays. */
  lemma CasDeleteIfEqualsRemoves(d: Document, key: string, compare: Value)
    requires IsStored(d)
    ensures var s := CasStep(d, CasOperation(key, compare, Undefined));
      && (key in s.doc <==> Truthy(Lookup(d, key)) && StrictEq(Lookup(d, key), compare))
      && (forall k :: k != key ==> Lookup(s.doc, k) == Lookup(d, k))
  {
    var op := CasOperation(key, compare, Undefined);
    if CasStep(d, op).failure == None {
      CasSets(d, op);
    }
  }

  // ------------------------------------------------------------- casMulti

  /** Running a batch that is the concatenation of two batches is running
      the first and, unless it failed, the second on its result. */
  lemma {:induction false} CasMultiAppend(d: Document, a: seq<CasOperation>, b: seq<CasOperation>)
    ensures CasMultiStep(d, a + b) ==
      var s := CasMultiStep(d, a);
      if s.failure.Some? then s else Then(s, CasMultiStep(s.doc, b))
    decreases |a|
  {
    if a == [] {
      assert a + b == b;
    } else {
      assert (a + b)[0] == a[0];
      assert (a + b)[1..] == a[1..] + b;
      var first := CasStep(d, a[0]);
      if first.failure.None? {
        CasMultiAppend(first.doc, a[1..], b);
      }
    }
  }

  /** Partial application: when operations 0..i-1 succeed and operation i
      fails, `casMulti` fails with operation i's error, keeps exactly the
      effects (and writes) of 0..i-1 and applies nothing after i. */
  lemma CasMultiStopsAt(d: Document, ops: seq<CasOperation>, i: nat)
    requires i < |ops|
    requires CasMultiStep(d, ops[..i]).failure == None
    requires CasStep(CasMultiStep(d, ops[..i]).doc, ops[i]).failure.Some?
    ensures var prefix := CasMultiStep(d, ops[..i]);
      CasMultiStep(d, ops) == Step(prefix.doc, prefix.writes, CasStep(prefix.doc, ops[i]).failure)
  {
    var prefix := CasMultiStep(d, ops[..i]);
    assert ops == ops[..i] + ops[i..];
    CasMultiAppend(d, ops[..i], ops[i..]);
    assert ops[i..][0] == ops[i];
  }

  /** `casMulti` succeeds exactly when every operation succeeds on the
      document left by the operations before it. */
  lemma {:induction false} CasMultiSucceedsIff(d: Document, ops: seq<CasOperation>)
    ensures CasMultiStep(d, ops).failure == None <==>
      forall i :: 0 <= i < |ops| ==> CasStep(CasMultiStep(d, ops[..i]).doc, ops[i]).failure == None
    decreases |ops|
  {
    if ops != [] {
      var first := CasStep(d, ops[0]);
      assert ops[..0] == [];
      if first.failure.None? {
        var rest := ops[1..];
        CasMultiSucceedsIff(first.doc, rest);
        forall i | 1 <= i < |ops|
          ensures CasMultiStep(d, ops[..i]) == Then(first, CasMultiStep(first.doc, rest[..i - 1]))
          ensures ops[i] == rest[i - 1]
        {
          assert ops[..i][0] == ops[0];
          assert ops[..i][1..] == rest[..i - 1];
        }
        if CasMultiStep(d, ops).failure == None {
          forall i | 0 <= i < |ops|
            ensures CasStep(CasMultiStep(d, ops[..i]).doc, ops[i]).failure == None
          {
            if i > 0 {
              assert CasStep(CasMultiStep(first.doc, rest[..i - 1]).doc, rest[i - 1]).failure == None;
            }
          }
        } else {
          var j :| 0 <= j < |rest| && CasStep(CasMultiStep(first.doc, rest[..j]).doc, rest[j]).failure != None;
          assert CasStep(CasMultiStep(d, ops[..j + 1]).doc, ops[j + 1]).failure != None;
        }
      }
    }
  }

  /** Each operation of a batch rewrites the file at most once. */
  lemma {:induction false} CasMultiWrites(d: Document, ops: seq<CasOperation>)
    ensures CasMultiStep(d, ops).writes <= |ops|
    decreases |ops|
  {
    if ops != [] {
      CasMultiWrites(CasStep(d, ops[0]).doc, ops[1..]);
    }
  }

  // ------------------------------------------------------------- transact

  /** `transact` on a falsy current value does nothing. */
  lemma TransactSkipsFalsy(d: Document, key: string, io: Value -> Value)
    requires !Truthy(Lookup(d, key))
    ensures TransactStep(d, key, io) == Step(d, 0, None)
  {
  }

  /** `transact` on a truthy current value cannot fail (a truthy value is
      never strictly equal to undefined) and sets the key to `io(current)`,
      leaving every other key as it was. */
  lemma TransactSets(d: Document, key: string, io: Value -> Value)
    requires IsStored(d) && Truthy(Lookup(d, key))
    ensures var s := TransactStep(d, key, io);
      && s.failure == None
      && IsStored(s.doc)
      && Lookup(s.doc, key) == Normalize(io(Lookup(d, key)))
      && (forall k :: k != key ==> Lookup(s.doc, k) == Lookup(d, k))
  {
    CasSets(d, CasOperation(key, Undefined, io(Lookup(d, key))));
  }

  /** `transactMulti` never fails, keeps the document storable, and leaves
      every key that is not in its list as it was. */
  lemma {:induction false} TransactMultiFrame(d: Document, keys: seq<string>, io: Value -> Value)
    requires IsStored(d)
    ensures var s := TransactMultiStep(d, keys, io);
      && s.failure == None
      && IsStored(s.doc)
      && (forall k :: k !in keys ==> Lookup(s.doc, k) == Lookup(d, k))
    decreases |keys|
  {
    if keys != [] {
      var first := TransactStep(d, keys[0], io);
      if Truthy(Lookup(d, keys[0])) {
        TransactSets(d, keys[0], io);
      }
      TransactMultiFrame(first.doc, keys[1..], io);
      forall k | k !in keys ensures k !in keys[1..] && k != keys[0] {
        assert keys == [keys[0]] + keys[1..];
      }
    }
  }

  /** A key whose current value is falsy and that the list names once is
      left as it was; a truthy one named once is transformed once. */
  lemma {:induction false} TransactMultiOnce(d: Document, keys: seq<string>, io: Value -> Value, key: string)
    requires IsStored(d)
    requires multiset(keys)[key] == 1
    ensures var s := TransactMultiStep(d, keys, io);
      Lookup(s.doc, key) == if Truthy(Lookup(d, key)) then Normalize(io(Lookup(d, key))) else Lookup(d, key)
    decreases |keys|
  {
    assert keys == [keys[0]] + keys[1..];
    var first := TransactStep(d, keys[0], io);
    if Truthy(Lookup(d, keys[0])) {
      TransactSets(d, keys[0], io);
    }
    if keys[0] == key {
      assert key !in keys[1..];
      TransactMultiFrame(first.doc, keys[1..], io);
    } else {
      TransactMultiOnce(first.doc, keys[1..], io, key);
    }
  }

  // ------------------------------------------------------- delete, clear

  /** `delete(key)` leaves exactly `key` gone, and rewrites the file only
      when the key was there. */
  lemma DeleteRemoves(d: Document, key: string)
    requires IsStored(d)
    ensures var s := DeleteStep(d, key);
      && s.doc == d - {key}
      && s.failure == None
      && (s.writes == 0 <==> key !in d)
  {
    PersistRemove(d, key);
    if key in d {
      assert key !in d - {key};
    }
  }

  /** `clear()` leaves the document empty, rewriting the file only when it
      was not empty already. */
  lemma ClearEmpties(d: Document)
    ensures var s := ClearStep(d);
      && s.doc == map[]
      && s.failure == None
      && (s.writes == 0 <==> d == map[])
  {
  }
}
