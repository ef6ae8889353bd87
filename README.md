# orga: shared store handles and the `#[derive(State)]` layout

This project models two pieces of the orga state engine, which lays typed
application state out in one flat store of byte keys and byte values.

- **`Shared<T>`** (`src/store/share.rs`) is a cloneable handle to one store,
  built on `Rc<RefCell<T>>`. Every clone reaches the same store. `get`, `put`
  and `delete` borrow the store only while the inner call runs, then pass its
  answer back unchanged. The model has two heap classes. `Share.StoreCell` is
  the `RefCell`: the inner store's contents plus the `RefCell` borrow state.
  `Share.Shared` is a handle holding a reference to one cell.
- **`#[derive(State)]`** (`macros/src/state.rs`) is a procedural macro. It
  writes the `State` impl for a struct. The model gives the meaning of that
  impl, not the tokens. The `Encoding` is a tuple with one component per
  field. `create` builds field `i` from `store.sub(&[i])` and component `i`.
  `flush` returns the tuple of the fields' `flush` results. A `?` after each
  field makes the first failing field end the whole operation.
  `DeriveState.Ty` describes field types. A derived struct is a `Record`. Any
  other `State` type is a `Leaf` whose own `create` and `flush` are given as
  functions.
- **`Stores`** holds the parts of the store capability that both pieces need:
  exact-key lookup, upsert, delete, and sub-store key prefixes.

A store view is modelled by its key prefix. A field's sub-store `sub(&[i])`
has prefix `prefix + [i]`.

## Model

| member | source | states |
|---|---|---|
| Share.Shared.constructor | src/store/share.rs:18-21 | `Shared::new` wraps the given store in a fresh cell. The new handle reads exactly that store's contents, and no borrow is active. |
| Share.Shared.Clone | src/store/share.rs:24-27 | `clone` returns a new handle object to the same cell, so it aliases the store and copies nothing. |
| Share.Shared.Get | src/store/share.rs:30-35 | `get` returns the inner store's answer unchanged, error included. It leaves the contents alone and restores the borrow state it found. It may run under other shared borrows, but not under a `borrow_mut`. |
| Share.Shared.Put | src/store/share.rs:37-41 | `put` needs no active borrow. It returns the inner store's answer unchanged, error included. The store then holds exactly the upsert, or is unchanged when the inner store failed. No borrow is active afterwards. |
| Share.Shared.Delete | src/store/share.rs:43-46 | `delete` does the same as `put`, with the key removed instead of written. |
| Share.StoreCell.Get | src/store/share.rs:32-33 | The inner store's `get` runs only under an active borrow. It returns the stored value, or the backend's error. |
| Share.StoreCell.Put | src/store/share.rs:39-40 | The inner store's `put` runs only under the exclusive borrow. It overwrites silently. |
| Share.StoreCell.Delete | src/store/share.rs:44-45 | The inner store's `delete` runs only under the exclusive borrow. Removing an absent key is a no-op. |
| Share.ReadResult | src/store/share.rs:31-34 | The answer of `get`: the error of a failing store, or else `Some` of exactly the stored value when the key is present and `None` when it is absent. |
| Share.WriteResult | src/store/share.rs:38-46 | The answer of `put`/`delete`: an error exactly when the store fails, and then that store's error. |
| Share.PutVisibleThroughAlias | src/store/share.rs:55-63 | A `put` through one handle is seen at once by `get` through any other handle on the same cell. With the modelled backend, which fails every call with one fixed error, that error reaches both callers. |
| Share.LaterPutOverwrites | src/store/share.rs:65-68 | A later `put` to the same key through a second handle replaces the value read through every handle. |
| Share.ShareScenario | src/store/share.rs:54-69 | The unit test, proved. A store and two clones each read `[5]` after a `put` through one clone. Each reads `[6]` after a `put` through the original. |
| Stores.Sub | macros/src/state.rs:37 | `store.sub(segment)` addresses key `k` at `prefix + segment + k`. |
| Stores.SubComposes | macros/src/state.rs:36-39 | Nested sub-stores address what one sub-store at the joined path addresses. |
| Stores.FieldSegment | macros/src/state.rs:21-24 | The path segment `&[i]` of field `i` is the single byte `i`. |
| Stores.FieldSubstoresDisjoint | macros/src/state.rs:36-39 | The sub-stores of two distinct fields share no key. |
| DeriveState.IsTupleStruct | macros/src/state.rs:10-17 | Exactly the structs with unnamed fields are tuple structs. |
| DeriveState.StructFields | macros/src/state.rs:97-111 | Enums stop with "not yet supported", unions and unit structs with a panic. Structs with named or unnamed fields yield their fields in declaration order, with names exactly for named fields. |
| DeriveState.Seq | macros/src/state.rs:21-24 | The index generator yields `0 .. n-1` in order, one index per field. `FieldCreates` takes both the segment `&[i]` and `data.i` from it (lines 28-29), and `FieldFlushes` takes `self.i` from it (line 58). |
| DeriveState.Derive | macros/src/state.rs:7-95 | An impl is emitted exactly for structs with named or unnamed fields. Otherwise expansion stops for the same reason `struct_fields` gives. The impl is a record with one component per declared field, in declaration order, keeping the declared type. Its field names are present exactly when the struct is not a tuple struct. |
| DeriveState.FieldOf | macros/src/state.rs:61-68 | The field that `self.i` (tuple struct) or `self.name` (named struct) reads is a value of field `i`'s declared type. |
| DeriveState.DerivedEncoding | macros/src/state.rs:75-79 | The emitted `type Encoding` (`IsEncodingOf` of the derived record) is a tuple with one component per declared field, in declaration order, and component `i` is an encoding of the `i`-th declared type. For named and tuple structs this holds in both directions. |
| DeriveState.Create | macros/src/state.rs:32-55 | A successful `create` yields a value of the struct's type. |
| DeriveState.FieldCreates | macros/src/state.rs:35-40 | One `create` per field, and each success is a value of that field's type. |
| DeriveState.Flush | macros/src/state.rs:57-71 | A successful `flush` yields an `Encoding` of the type: a tuple with exactly one component per field, component `i` an encoding of field `i` (lines 75-79). |
| DeriveState.FieldFlushes | macros/src/state.rs:60-61 | One `flush` per field, and each success is an encoding of that field's type. |
| DeriveState.Collect | macros/src/state.rs:39 | The `?` chain succeeds exactly when every step succeeds, and then keeps every value in order. Otherwise it fails with the error of a step that comes after only successes. |
| DeriveState.CollectFirstError | macros/src/state.rs:39 | When step `j` is the first failure, the chain fails with exactly step `j`'s error. |
| DeriveState.Assemble | macros/src/state.rs:34-53 | `Self(..)` holds the items by position. `Self { .. }` holds item `i` under the `i`-th declared name and has no other field. |
| DeriveState.CreateAddressesFields | macros/src/state.rs:35-40 | The compound `create` succeeds exactly when every field's does. Field `i` is then the value created from the sub-store at path `[i]` and component `i` of the encoding. |
| DeriveState.CreateFailsWithFirstError | macros/src/state.rs:35-52 | A failing field with only successes before it makes the compound `create` fail with that field's error. Every compound failure comes from such a first failing field. |
| DeriveState.FlushGathersFields | macros/src/state.rs:60-68 | The compound `flush` succeeds exactly when every field's does. Component `i` is then field `i`'s `flush`. |
| DeriveState.FlushFailsWithFirstError | macros/src/state.rs:60-68 | The compound `flush` fails exactly with the error of its first failing field. |
| DeriveState.CreateThenFlush | macros/src/state.rs:32-71 | If every leaf's `flush` returns the encoding its `create` was given, the compound does too, at every depth. |
| DeriveState.FlushThenCreate | macros/src/state.rs:32-71 | If every leaf's `create` rebuilds what its `flush` took apart, the compound `create` rebuilds the flushed value from any store. |
| DeriveState.FieldsDetermineValue | macros/src/state.rs:34-53 | Two struct values that agree on every field (by position or by name) are equal. |
| DeriveState.NamedAndTupleCreateAgree | macros/src/state.rs:32-55 | A named struct and the tuple struct with the same field types `create` alike: same success, same error, and field `names[i]` holds what position `i` holds. |
| DeriveState.NamedAndTupleFlushAgree | macros/src/state.rs:57-71 | A named struct and the tuple struct with the same values in order `flush` to the same encoding or the same error. |
| DeriveState.LeafStore | macros/src/state.rs:37-49 | The store of the leaf at a field-index path extends the root prefix. Its next byte is the first index on the path. |
| DeriveState.LeafStoresDisjoint | macros/src/state.rs:36-51 | Two distinct leaves, at any nesting depth, never share a key. |
| DeriveState.LeafCreatedFromItsStore | macros/src/state.rs:35-52 | After a successful compound `create`, each leaf is what its own `create` made of the store at its path and the encoding component at the same path. |

## Left out

- The procedural-macro plumbing is not modelled: `parse_macro_input!`, the `syn` syntax tree, `quote!`, and turning index strings into tokens with `TokenStream2::from_str(..).unwrap()`. Only the meaning of the emitted impl is modelled.
- The compiler's checks on the emitted code are preconditions (`DeriveState.WellFormed`), not rejections. A struct with more than 256 fields fails to compile because the index in `&[i]` is a `u8` literal. Duplicate field names are a compile error too.
- `Rc` reference counting and dropping the store with its last handle are not modelled. The Dafny heap reference stands in for the `Rc`.
- `RefCell` panics are not simulated. A borrow conflict is a precondition on the handle's methods.
- The inner store is not generic over `Read`/`Write`. It is a map-backed store, plus an optional error that every call of a failing store returns.
- Share.Shared.Put: a failing inner store is taken to write nothing. A real backend might fail after a partial write.
- Share.Shared.Delete: a failing inner store is taken to delete nothing, for the same reason.
- Concrete backends (`MapStore`, Merkle stores) and the real `Store::sub` are not part of this model. A store view is its key prefix, and `sub` appends a segment.
- The `State` impls of leaf types are abstract. Their round trips are hypotheses of the round-trip lemmas, not facts.
- Leaf `flush` is a pure function in the model. Writes a leaf makes to its own store while flushing are not modelled.
- The contents of `orga::Result`'s error are opaque. Errors are only passed through.
- Rust evaluates the fields left to right and stops at the first `?` failure. The model computes every field's result and then takes the first error. The outcome is the same because field `create`/`flush` are side-effect free in the model.
- Only `Fields::Unit` is rejected (macros/src/state.rs:109). So `struct S {}` and `struct S();` derive an impl whose encoding is the empty tuple `()`.
- Enums stop at `todo!` (macros/src/state.rs:102). There is no layout for sum types to model.
- `?` passes a field's error on unchanged (macros/src/state.rs:39, 51, 61, 68). Nothing records which field failed.
- Generic structs are not modelled, and `DeriveState.ItemShape` carries no generic parameters. The emitted `impl ::orga::state::State for #name` (macros/src/state.rs:74) drops the struct's generics, so deriving on a generic struct emits an impl that does not compile.
