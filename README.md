# Wilson: a file-backed key-value store, modelled in Dafny

`Wilson` is a namespaced key-value store. Each namespace is one JSON file
that holds a flat object from string keys to JSON values. Every call reads
the whole file. A mutating call computes a new object and rewrites the file,
unless the new object serialises exactly as the old one. On top of this
read-modify-write cycle sit conditional updates:

- `put` with an `ifNotExists` guard;
- `cas`, which fails when the current value already equals `compare`, the reverse of classic compare-and-swap;
- `casMulti`;
- `transact` and `transactMulti`, which apply a function to a key's current value.

The repository holds the handle twice, a generic version (`src/kv.ts`) and
an untyped one (`src/index.ts`), with the same logic. One Dafny class models
both.

The project has five modules:

- `Json` (json.dfy) covers the JavaScript semantics the guards depend on:
  - the `Value` type;
  - ToBoolean as `Truthy`, with exactly `undefined`, `null`, `false`, `0` and `""` falsy;
  - `===` as `StrictEq`, which is never true for an object or array read back from the file, because `get` returns a freshly parsed copy;
  - `Persist`, the `JSON.stringify`-then-`JSON.parse` round trip. It drops `undefined` object members and turns `undefined` array elements into `null`, at every depth.

  Its invariant `IsStored` says the file never holds `undefined` anywhere.
- `Protocol` (protocol.dfy) defines one function per operation. Each maps the document read to a `Step`: the document afterwards, the number of file rewrites (0 or more), and the error thrown, if any. Its lemmas state the conditional-update protocol.
- `Enumeration` (enumeration.dfy) fixes one order in which a document's keys are listed. `Object.keys` lists each own key once, and an unchanged document lists the same way every time. The model picks ascending code-point order for this, as `Enumerate`.
- `Display` (display.dfy) holds the decimal numeral and the `toString` text.
- `Store` (wilson.dfy) holds the class `Wilson`. Its field `doc` stands for the file, and its ghost counter `writes` counts `writeFileSync` calls. Each mutator is proved to change `doc` and `writes` exactly as its `Protocol` function says and to keep `IsStored`. Queries have no `modifies` clause, so they cannot change the document or the counter.

Two behaviours of the code are easy to misread:

- `put`'s short-cut uses `===`, not deep equality. Putting an object or array that equals the stored one therefore still goes through `exec`. With `ifNotExists`, it throws "already exists" instead, because the stored object is truthy and not `===` to the new one.
- `write` decides to skip by comparing serialised text, not by deep equality (see `Store.Wilson.Write` below).

## Model

| member | source | states |
|---|---|---|
| `Json.Truthy` | src/kv.ts:40 | the guard `if (item)` holds for every value except `undefined`, `null`, `false`, `0` and `""`; objects and arrays, even empty, are truthy |
| `Json.StrictEq` | src/kv.ts:41 | `item === value` holds exactly when both are the same primitive; never for an object or array |
| `Json.Normalize` | src/kv.ts:22 | serialising and parsing any value other than `undefined` yields a value with no `undefined` inside |
| `Json.Persist` | src/index.ts:42 | the written file holds exactly the members of `data` whose value is not `undefined`, and no `undefined` anywhere |
| `Json.NormalizeFixes` | src/kv.ts:14-16 | a value that came out of `JSON.parse` survives another stringify/parse round trip unchanged |
| `Json.NormalizeIdempotent` | src/index.ts:34-36 | normalising a value twice is the same as normalising it once |
| `Json.PersistFixes` | src/index.ts:37-41 | writing back a document exactly as it was read reproduces it |
| `Json.PersistIdempotent` | src/kv.ts:17-19 | persisting what was just persisted gives the same document |
| `Json.PersistAssign` | src/kv.ts:48-51 | `data[key] = value` then persist sets `key` to the normalised value, or removes it when the value is `undefined`, and keeps every other member |
| `Json.PersistRemove` | src/kv.ts:80-83 | `delete data[key]` then persist removes exactly `key` |
| `Protocol.WriteStepSpec` | src/kv.ts:17-24 | after `write(data)` the file holds `data` minus its `undefined` members; the file is rewritten iff that differs from before; writing back the snapshot never rewrites it |
| `Protocol.PutNoOp` | src/kv.ts:39-43 | when the current value is truthy and `===` the new one, `put` returns with no change, no write and no error |
| `Protocol.PutFailsIff` | src/kv.ts:40-46 | `put` throws "already exists" exactly when `ifNotExists` is set and the current value is truthy and not `===` the new one; then the document is untouched |
| `Protocol.PutSets` | src/index.ts:54-68 | a `put` that does not throw leaves `key` holding the normalised value (absent iff the value is `undefined`) and every other key as it was |
| `Protocol.PutOverwritesFalsy` | src/index.ts:56-63 | with `ifNotExists`, a stored `0`, `false`, `""` or `null` is still overwritten; no write happens iff the stored value is unchanged |
| `Protocol.CasFailsIff` | src/kv.ts:59-63 | `cas` throws "is already …" exactly when the current value is truthy and `===` `compare`; then the document is unchanged and nothing is written |
| `Protocol.CasSets` | src/kv.ts:65-68 | otherwise `cas` sets `key` to `set` (absent iff `set` is `undefined`) and leaves every other key as it was |
| `Protocol.CasSetIfNotExistsOverwrites` | src/types.ts:40-44 | a CasSetIfNotExists operation (`compare` undefined) never fails, so it overwrites a key that already holds a value |
| `Protocol.CasDeleteIfEqualsRemoves` | src/types.ts:34-38 | a CasDeleteIfEquals operation (`set` undefined) leaves the key present exactly when its value is truthy and `===` `compare`; other keys are untouched |
| `Protocol.CasMultiAppend` | src/kv.ts:72-77 | running the batch `a + b` is running `a`, then `b` on its result unless `a` failed |
| `Protocol.CasMultiStopsAt` | src/index.ts:88-93 | if operations 0..i-1 succeed and operation i fails, `casMulti` fails with i's error, keeps exactly the document and writes of 0..i-1, and applies nothing after i |
| `Protocol.CasMultiSucceedsIff` | src/kv.ts:73-75 | `casMulti` succeeds iff every operation succeeds on the document left by those before it |
| `Protocol.CasMultiWrites` | src/index.ts:89-91 | a batch rewrites the file at most once per operation |
| `Protocol.TransactSkipsFalsy` | src/kv.ts:113-115 | `transact` on a falsy current value changes nothing and writes nothing |
| `Protocol.TransactSets` | src/kv.ts:115-118 | `transact` on a truthy value cannot fail (a truthy value is never `===` `undefined`) and sets the key to `io(current)`, keeping every other key |
| `Protocol.TransactMultiFrame` | src/kv.ts:121-129 | `transactMulti` never fails, keeps the document storable and leaves every key not in its list unchanged |
| `Protocol.TransactMultiOnce` | src/index.ts:133-138 | a key listed once ends as `io(current)` if its value was truthy, and unchanged if it was falsy |
| `Protocol.DeleteRemoves` | src/index.ts:95-100 | `delete(key)` leaves exactly `key` absent; the file is rewritten iff `key` was present |
| `Protocol.ClearEmpties` | src/index.ts:102-106 | `clear()` leaves the document empty; the file is rewritten iff it was not already empty |
| `Display.Decimal` | src/index.ts:177 | the count is written as a non-empty run of decimal digits with no leading zero |
| `Display.DecimalRoundTrip` | src/kv.ts:168 | reading the numeral back gives the count |
| `Display.DescribeInjective` | src/index.ts:176-178 | `Wilson (<namespace>) (<count> items)` determines both the namespace and the count, even when the namespace contains parentheses or digits |
| `Store.Wilson.constructor` | src/kv.ts:6-10 | a handle on a namespace whose file holds a stored document, with no writes yet |
| `Enumeration.Enumerate` | src/index.ts:117-119 | `Object.keys` of a set of own keys: each key exactly once, as many entries as keys, in one fixed (ascending) order |
| `Store.Listing` | src/index.ts:117-119 | `Object.keys(read())`: a listing of every stored key exactly once, as long as the document |
| `Store.ItemsOf` | src/index.ts:120-123 | `Object.entries` mapped to items: every member once with its stored value, with keys in `Listing` order |
| `Store.EnumerationsAgree` | src/index.ts:117-123 | `list()`, `values()` and `entries()` have the document's size and line up: the i-th value and the i-th pair belong to the i-th listed key |
| `Store.YieldValues` | src/index.ts:146-150 | the `values()` generator loop yields each item's value, in order, and nothing else |
| `Store.YieldPairs` | src/index.ts:152-156 | the `entries()` generator loop yields each entry's key and value, in order, and nothing else |
| `Store.Wilson.Read` | src/kv.ts:14-16 | `read()` returns the document in the file |
| `Store.Wilson.Write` | src/index.ts:37-44 | `write(data)` leaves the file holding `Persist(data)`; the counter grows by one iff that differs from the old document, so an equal serialisation means no write |
| `Store.Wilson.Exec` | src/kv.ts:25-29 | `exec(io)` is `write(io(snapshot))` |
| `Store.Wilson.Get` | src/kv.ts:30-33 | `get(key)` returns the member's value, or `undefined` when the key is absent |
| `Store.Wilson.Put` | src/kv.ts:34-52 | `put` changes the document and the counter, and returns the error, exactly as `PutStep` says |
| `Store.Wilson.Cas` | src/kv.ts:54-70 | `cas` behaves exactly as `CasStep` says |
| `Store.Wilson.CasMulti` | src/kv.ts:72-77 | the loop of `cas` calls, stopping at the first error, behaves exactly as `CasMultiStep` says |
| `Store.Wilson.Delete` | src/kv.ts:79-84 | `delete` behaves exactly as `DeleteStep` says |
| `Store.Wilson.Clear` | src/kv.ts:86-90 | `clear` returns the pre-call document and behaves as `ClearStep` says |
| `Store.Wilson.Has` | src/index.ts:108-111 | `has(key)` is true exactly when `key` is a member, including a member holding `null`; once the document has its own `hasOwnProperty` member, every call throws a TypeError instead |
| `Store.Wilson.List` | src/index.ts:117-119 | `list()` is the document's one fixed listing `Listing(doc)`, which names every stored key exactly once |
| `Store.Wilson.Count` | src/index.ts:113-115 | `count()` is the number of stored keys, which is the length of `list()` |
| `Store.Wilson.Items` | src/index.ts:120-123 | `items()` is `ItemsOf(doc)`: its keys are exactly `list()`, in the same order |
| `Store.Wilson.Values` | src/index.ts:146-150 | `values()` yields the values of `items()`, in its order |
| `Store.Wilson.Entries` | src/index.ts:152-156 | `entries()` yields the (key, value) pairs of `items()`, in its order |
| `Store.Wilson.Transact` | src/index.ts:125-131 | `transact` reports whether the current value was truthy, and behaves as `TransactStep` says |
| `Store.Wilson.TransactMulti` | src/kv.ts:121-129 | the loop of `transact` calls behaves as `TransactMultiStep` says |
| `Store.Wilson.ToString` | src/kv.ts:167-169 | `toString()` is `Wilson (<namespace>) (<count> items)` with the current count |
| `Store.Wilson.ToPrimitive` | src/kv.ts:171-181 | the `"number"` hint gives the count; `"string"` and `"default"` give `toString()` |

## Left out

- File and path I/O. This covers `path()` (`process.cwd()` in one file, `__dirname` in the other), `readFileSync` and `writeFileSync`. The file is the field `doc`. The constructor takes the document the file holds, so the missing-file and malformed-JSON errors of `read()` are not modelled.
- Strings are sequences of Unicode scalar values (Dafny `char`). JavaScript strings are UTF-16 code-unit sequences that may hold lone surrogates, which `JSON.stringify` escapes and `JSON.parse` restores; keys or values containing lone surrogates are not modelled, and key order compares code points, not code units.
- JSON text. The model leaves out the two-space pretty-printing and parse failures. Only the value-level effect of `JSON.stringify`/`JSON.parse` is kept, as `Persist`.
- Store.Wilson.Write: the skip test compares document contents, while the source compares serialised text, which depends on member order. The two agree except when old and new differ only in member order (for example, `put` of an object holding the stored members in another order). There the source writes once and the model does not, so `writes` can count one less per such call. `Protocol.WriteStep` (and so `Protocol.WriteStepSpec`, whose `s.writes == 0 <==> s.doc == d` is the content-level test), `Exec`, `Put`, `Cas`, `CasMulti`, `Transact` and `TransactMulti` inherit this. `Delete` does not: removing a member never changes the order of the rest, so its text differs exactly when its contents do.
- Numbers are integers. `NaN`, `-0`, `Infinity` and fractions are not modelled. `NaN` and `-0` are falsy, like `0`. `NaN`, `Infinity` and `-Infinity` serialise as `null`, and `-0` serialises as `0`. `Num(int)` also admits integers above 2^53, which a JavaScript number cannot hold exactly.
- Enumeration order. `Object.keys` order puts integer-like keys first in ascending order, then the rest in insertion order. The model keeps only that the order is fixed by the document: `List`, `Items`, `Values` and `Entries` all follow the one listing `Listing(doc)`, which `Enumeration.Enumerate` fixes as ascending code-point order. Which order JavaScript actually uses is not modelled.
- The `keys`, `values`, `entries`, `Symbol.iterator` and `Symbol.asyncIterator` generators are modelled as methods that return the whole sequence. `keys()` is `List`, and both iterators are `Entries`. Laziness and the asynchronous form are not modelled.
- Concurrency. Lost updates between the read and the write of another process are out of scope. The model is sequential and single-writer.
- Store.Wilson.Has: only the message text of its TypeError is left out (reduced to `NotAFunction`); the throw itself is modelled. An ordinary `put("hasOwnProperty", 1)` creates that member: the inherited function is truthy and not `===` 1, so `exec` assigns it (src/kv.ts:34-52). From then on `data.hasOwnProperty` is the stored value, and every `has(key)` throws (src/kv.ts:92-95, src/index.ts:108-111).
- Prototype members. Apart from the `hasOwnProperty` shadowing in `has`, the model treats every key as an own member or as absent. It leaves out keys such as `toString`, where `get` returns an inherited function and so `put`/`cas`/`transact` see a truthy value, and `__proto__`, where assignment changes the prototype instead of adding a member.
- Return values and exceptions. Methods return nothing instead of the handle `this`. Thrown errors are returned as `Option<Failure>`, and the message text (`String(compare)`) is reduced to the `Failure` constructor. `transact` returns a boolean instead of `this`/`undefined`.
- Transformers (`io`) are total, pure Dafny functions. The source's transformers may throw, or mutate the snapshot in place before returning it. Only the returned document matters, so in-place mutation makes no difference.
- The namespace is a constant. In the source it is a public, writable field that the core never reassigns.
- The generic parameter `T` of `src/kv.ts` is static typing only. The build output under `dist/` repeats the two source files and is not modelled separately.
