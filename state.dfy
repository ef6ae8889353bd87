/** What `#[derive(State)]` makes of a struct: which item shapes it accepts,
    and the `Encoding`, `create` and `flush` of the impl it emits. The emitted
    code is modelled by its meaning: a compound of fields laid out at
    positional one-byte sub-store paths. */
module DeriveState {
  import opened Stores

  // ---------------------------------------------------------------------
  // Types, encodings and live values
  // ---------------------------------------------------------------------

  /** A type implementing `State`. A leaf is any type whose impl is not
      derived here: its `create` (from its store's key prefix and its
      encoding) and its `flush` are given as functions. A record is a derived
      struct: `names` is `None` for a tuple struct and the field names, in
      declaration order, for a struct with named fields. */
  datatype Ty<!E, !V> =
    | Leaf(create: (Bytes, E) -> Result<V>, flush: V -> Result<E>)
    | Record(names: Option<seq<string>>, fields: seq<Ty<E, V>>)

  /** A `State::Encoding`: a leaf's own encoding, or the tuple of the fields'
      encodings. */
  datatype Encoding<E> = LeafEnc(e: E) | TupleEnc(parts: seq<Encoding<E>>)

  /** A live value: a leaf value, a tuple struct (`self.0`, `self.1`, ...)
      or a struct with named fields (`self.x`, `self.y`, ...). */
  datatype Value<V> =
    | LeafValue(v: V)
    | TupleValue(items: seq<Value<V>>)
    | NamedValue(fields: map<string, Value<V>>)

  predicate Distinct<T(==)>(s: seq<T>)
  {
    forall i, j :: 0 <= i < j < |s| ==> s[i] != s[j]
  }

  /** What the compiler demands of a derived struct: at most 256 fields,
      since the index in `&[i]` is a `u8` literal; one name per field and no
      name twice for a struct with named fields; and the same of every field
      type that is itself derived. */
  predicate WellFormed<E, V>(ty: Ty<E, V>)
  {
    match ty
    case Leaf(_, _) => true
    case Record(names, fields) =>
      && |fields| <= 256
      && (names.Some? ==> |names.value| == |fields| && Distinct(names.value))
      && forall i :: 0 <= i < |fields| ==> WellFormed(fields[i])
  }

  /** `data` has type `<ty as State>::Encoding`: for a record, a tuple with
      exactly one component per field, component `i` an encoding of field `i`. */
  predicate IsEncodingOf<E, V>(data: Encoding<E>, ty: Ty<E, V>)
  {
    match ty
    case Leaf(_, _) => data.LeafEnc?
    case Record(_, fields) =>
      && data.TupleEnc?
      && |data.parts| == |fields|
      && forall i :: 0 <= i < |fields| ==> IsEncodingOf(data.parts[i], fields[i])
  }

  function NameSet(names: seq<string>): set<string>
  {
    set i | 0 <= i < |names| :: names[i]
  }

  /** `val` is a value of type `ty`. */
  predicate IsValueOf<E, V>(val: Value<V>, ty: Ty<E, V>)
  {
    match ty
    case Leaf(_, _) => val.LeafValue?
    case Record(None, fields) =>
      && val.TupleValue?
      && |val.items| == |fields|
      && forall i :: 0 <= i < |fields| ==> IsValueOf(val.items[i], fields[i])
    case Record(Some(names), fields) =>
      && val.NamedValue?
      && |names| == |fields|
      && val.fields.Keys == NameSet(names)
      && forall i :: 0 <= i < |fields| ==> names[i] in val.fields && IsValueOf(val.fields[names[i]], fields[i])
  }

  /** Field `i` of a struct value: `self.i` for a tuple struct, `self.name`
      for the `i`-th declared name otherwise. */
  function FieldOf<E, V>(ty: Ty<E, V>, val: Value<V>, i: nat): (r: Value<V>)
    requires ty.Record? && IsValueOf(val, ty) && i < |ty.fields|
    ensures IsValueOf(r, ty.fields[i])
  {
    if ty.names.None? then val.items[i] else val.fields[ty.names.value[i]]
  }

  /** The struct expression `Self(v0, v1, ...)` or `Self { x: v0, y: v1, ... }`. */
  function Assemble<V>(names: Option<seq<string>>, items: seq<Value<V>>): (r: Value<V>)
    requires names.Some? ==> |names.value| == |items| && Distinct(names.value)
    ensures names.None? ==> r == TupleValue(items)
    ensures names.Some? ==> r.NamedValue? && r.fields.Keys == NameSet(names.value)
    ensures names.Some? ==> forall i :: 0 <= i < |items| ==> r.fields[names.value[i]] == items[i]
  {
    if names.None? then TupleValue(items)
    else NamedValue(map i | 0 <= i < |items| :: names.value[i] := items[i])
  }

  // ---------------------------------------------------------------------
  // The `?` operator over fields in declaration order
  // ---------------------------------------------------------------------

  /** Evaluates `r0?, r1?, ...` left to right: the first error aborts, with
      that error and no value; otherwise every value, in order. */
  function Collect<T>(rs: seq<Result<T>>): (r: Result<seq<T>>)
    ensures r.Ok? <==> forall i :: 0 <= i < |rs| ==> rs[i].Ok?
    ensures r.Ok? ==> |r.value| == |rs| && forall i :: 0 <= i < |rs| ==> r.value[i] == rs[i].value
    ensures r.Err? ==> exists j :: 0 <= j < |rs| && rs[j] == Err(r.error) && forall i :: 0 <= i < j ==> rs[i].Ok?
  {
    if rs == [] then Ok([])
    else match rs[0]
      case Err(e) => Err(e)
      case Ok(v) =>
        match Collect(rs[1..])
        case Err(e) => Err(e)
        case Ok(vs) => Ok([v] + vs)
  }

  // ---------------------------------------------------------------------
  // The emitted `create` and `flush`
  // ---------------------------------------------------------------------

  /** `State::create(store, data)` for a value of type `ty` whose store has
      key prefix `store`. For a record, field `i` is created from
      `store.sub(&[i])` and `data.i`, in declaration order. */
  function Create<E, V>(ty: Ty<E, V>, store: Bytes, data: Encoding<E>): (r: Result<Value<V>>)
    requires WellFormed(ty) && IsEncodingOf(data, ty)
    ensures r.Ok? ==> IsValueOf(r.value, ty)
    decreases ty, 1
  {
    match ty
    case Leaf(create, _) =>
      (match create(store, data.e)
       case Err(e) => Err(e)
       case Ok(v) => Ok(LeafValue(v)))
    case Record(names, fields) =>
      (match Collect(FieldCreates(ty, store, data))
       case Err(e) => Err(e)
       case Ok(items) => Ok(Assemble(names, items)))
  }

  /** The `create` call of every field of a record, each at its own
      sub-store, before the `?` chain combines them. The index generator
      supplies both the path segment `&[i]` and the component `data.i`. */
  function FieldCreates<E, V>(ty: Ty<E, V>, store: Bytes, data: Encoding<E>): (rs: seq<Result<Value<V>>>)
    requires ty.Record? && WellFormed(ty) && IsEncodingOf(data, ty)
    ensures |rs| == |ty.fields|
    ensures forall i :: 0 <= i < |rs| ==> rs[i].Ok? ==> IsValueOf(rs[i].value, ty.fields[i])
    decreases ty, 0
  {
    var indexes := Seq(|ty.fields|);
    seq(|ty.fields|, i requires 0 <= i < |ty.fields| =>
      Create(ty.fields[i], Sub(store, FieldSegment(indexes[i])), data.parts[indexes[i]]))
  }

  /** `State::flush(self)`: for a record, the tuple of every field's `flush`,
      in declaration order. */
  function Flush<E, V>(ty: Ty<E, V>, val: Value<V>): (r: Result<Encoding<E>>)
    requires WellFormed(ty) && IsValueOf(val, ty)
    ensures r.Ok? ==> IsEncodingOf(r.value, ty)
    decreases ty, 1
  {
    match ty
    case Leaf(_, flush) =>
      (match flush(val.v)
       case Err(e) => Err(e)
       case Ok(e) => Ok(LeafEnc(e)))
    case Record(_, fields) =>
      (match Collect(FieldFlushes(ty, val))
       case Err(e) => Err(e)
       case Ok(parts) => Ok(TupleEnc(parts)))
  }

  /** The `flush` call of every field of a struct value, in declaration
      order, before the `?` chain combines them. The index generator picks
      `self.i`, or the `i`-th declared name. */
  function FieldFlushes<E, V>(ty: Ty<E, V>, val: Value<V>): (rs: seq<Result<Encoding<E>>>)
    requires ty.Record? && WellFormed(ty) && IsValueOf(val, ty)
    ensures |rs| == |ty.fields|
    ensures forall i :: 0 <= i < |rs| ==> rs[i].Ok? ==> IsEncodingOf(rs[i].value, ty.fields[i])
    decreases ty, 0
  {
    var indexes := Seq(|ty.fields|);
    seq(|ty.fields|, i requires 0 <= i < |ty.fields| => Flush(ty.fields[i], FieldOf(ty, val, indexes[i])))
  }

  // ---------------------------------------------------------------------
  // Per-field addressing and error propagation
  // ---------------------------------------------------------------------

  /** If `rs[j]` is the first error, the `?` chain fails with exactly it. */
  lemma CollectFirstError<T>(rs: seq<Result<T>>, j: nat)
    requires j < |rs| && rs[j].Err?
    requires forall i :: 0 <= i < j ==> rs[i].Ok?
    ensures Collect(rs) == Err(rs[j].error)
  {
  }

  /** The compound `create` succeeds exactly when every field's `create`
      succeeds, and then field `i` is the value created from the sub-store at
      the one-byte path `[i]` and component `i` of the encoding. */
  lemma CreateAddressesFields<E, V>(ty: Ty<E, V>, store: Bytes, data: Encoding<E>)
    requires ty.Record? && WellFormed(ty) && IsEncodingOf(data, ty)
    ensures Create(ty, store, data).Ok? <==>
      forall i :: 0 <= i < |ty.fields| ==> Create(ty.fields[i], Sub(store, FieldSegment(i)), data.parts[i]).Ok?
    ensures Create(ty, store, data).Ok? ==>
      forall i :: 0 <= i < |ty.fields| ==>
        FieldOf(ty, Create(ty, store, data).value, i) == Create(ty.fields[i], Sub(store, FieldSegment(i)), data.parts[i]).value
  {
  }

  /** The compound `create` fails exactly when some field fails after every
      earlier field succeeded, and then with that first failing field's error. */
  lemma CreateFailsWithFirstError<E, V>(ty: Ty<E, V>, store: Bytes, data: Encoding<E>)
    requires ty.Record? && WellFormed(ty) && IsEncodingOf(data, ty)
    ensures forall j ::
      (&& 0 <= j < |ty.fields|
       && Create(ty.fields[j], Sub(store, FieldSegment(j)), data.parts[j]).Err?
       && forall i :: 0 <= i < j ==> Create(ty.fields[i], Sub(store, FieldSegment(i)), data.parts[i]).Ok?)
      ==> Create(ty, store, data) == Err(Create(ty.fields[j], Sub(store, FieldSegment(j)), data.parts[j]).error)
    ensures Create(ty, store, data).Err? ==>
      exists j :: 0 <= j < |ty.fields| &&
        Create(ty.fields[j], Sub(store, FieldSegment(j)), data.parts[j]) == Err(Create(ty, store, data).error) &&
        forall i :: 0 <= i < j ==> Create(ty.fields[i], Sub(store, FieldSegment(i)), data.parts[i]).Ok?
  {
    var rs := FieldCreates(ty, store, data);
    forall j | 0 <= j < |rs| && rs[j].Err? && (forall i :: 0 <= i < j ==> rs[i].Ok?)
      ensures Collect(rs) == Err(rs[j].error)
    {
      CollectFirstError(rs, j);
    }
  }

  /** The compound `flush` succeeds exactly when every field's `flush`
      succeeds, and then component `i` of the tuple is field `i`'s `flush`. */
  lemma FlushGathersFields<E, V>(ty: Ty<E, V>, val: Value<V>)
    requires ty.Record? && WellFormed(ty) && IsValueOf(val, ty)
    ensures Flush(ty, val).Ok? <==>
      forall i :: 0 <= i < |ty.fields| ==> Flush(ty.fields[i], FieldOf(ty, val, i)).Ok?
    ensures Flush(ty, val).Ok? ==>
      forall i :: 0 <= i < |ty.fields| ==> Flush(ty, val).value.parts[i] == Flush(ty.fields[i], FieldOf(ty, val, i)).value
  {
  }

  /** The compound `flush` fails exactly when some field's `flush` fails
      after every earlier one succeeded, and then with that field's error. */
  lemma FlushFailsWithFirstError<E, V>(ty: Ty<E, V>, val: Value<V>)
    requires ty.Record? && WellFormed(ty) && IsValueOf(val, ty)
    ensures forall j ::
      (&& 0 <= j < |ty.fields|
       && Flush(ty.fields[j], FieldOf(ty, val, j)).Err?
       && forall i :: 0 <= i < j ==> Flush(ty.fields[i], FieldOf(ty, val, i)).Ok?)
      ==> Flush(ty, val) == Err(Flush(ty.fields[j], FieldOf(ty, val, j)).error)
    ensures Flush(ty, val).Err? ==>
      exists j :: 0 <= j < |ty.fields| &&
        Flush(ty.fields[j], FieldOf(ty, val, j)) == Err(Flush(ty, val).error) &&
        forall i :: 0 <= i < j ==> Flush(ty.fields[i], FieldOf(ty, val, i)).Ok?
  {
    var rs := FieldFlushes(ty, val);
    forall j | 0 <= j < |rs| && rs[j].Err? && (forall i :: 0 <= i < j ==> rs[i].Ok?)
      ensures Collect(rs) == Err(rs[j].error)
    {
      CollectFirstError(rs, j);
    }
  }

  // ---------------------------------------------------------------------
  // Round trips
  // ---------------------------------------------------------------------

  /** A leaf whose `flush` gives back the encoding its `create` was given. */
  ghost predicate CreateThenFlushRestores<E(!new), V>(create: (Bytes, E) -> Result<V>, flush: V -> Result<E>)
  {
    forall store, e :: create(store, e).Ok? ==> flush(create(store, e).value) == Ok(e)
  }

  /** A leaf whose `create`, from any store, rebuilds the value `flush` took
      apart (a leaf that keeps nothing in its store). */
  ghost predicate FlushThenCreateRestores<E, V(!new)>(create: (Bytes, E) -> Result<V>, flush: V -> Result<E>)
  {
    forall store, v :: flush(v).Ok? ==> create(store, flush(v).value) == Ok(v)
  }

  ghost predicate LeavesRestoreEncoding<E(!new), V>(ty: Ty<E, V>)
  {
    match ty
    case Leaf(create, flush) => CreateThenFlushRestores(create, flush)
    case Record(_, fields) => forall i :: 0 <= i < |fields| ==> LeavesRestoreEncoding(fields[i])
  }

  ghost predicate LeavesRestoreValue<E, V(!new)>(ty: Ty<E, V>)
  {
    match ty
    case Leaf(create, flush) => FlushThenCreateRestores(create, flush)
    case Record(_, fields) => forall i :: 0 <= i < |fields| ==> LeavesRestoreValue(fields[i])
  }

  /** If every leaf's `flush` undoes its `create`, then so does the compound's:
      flushing a freshly created value yields the encoding it was created from. */
  lemma {:induction false} CreateThenFlush<E(!new), V>(ty: Ty<E, V>, store: Bytes, data: Encoding<E>)
    requires WellFormed(ty) && IsEncodingOf(data, ty) && LeavesRestoreEncoding(ty)
    ensures Create(ty, store, data).Ok? ==> Flush(ty, Create(ty, store, data).value) == Ok(data)
    decreases ty
  {
    if ty.Record? && Create(ty, store, data).Ok? {
      var val := Create(ty, store, data).value;
      CreateAddressesFields(ty, store, data);
      forall i | 0 <= i < |ty.fields|
        ensures Flush(ty.fields[i], FieldOf(ty, val, i)) == Ok(data.parts[i])
      {
        CreateThenFlush(ty.fields[i], Sub(store, FieldSegment(i)), data.parts[i]);
      }
      FlushGathersFields(ty, val);
      assert Flush(ty, val).value.parts == data.parts;
    }
  }

  /** Two values of one struct type that agree on every field are equal. */
  lemma FieldsDetermineValue<E, V>(ty: Ty<E, V>, a: Value<V>, b: Value<V>)
    requires ty.Record? && IsValueOf(a, ty) && IsValueOf(b, ty)
    requires forall i :: 0 <= i < |ty.fields| ==> FieldOf(ty, a, i) == FieldOf(ty, b, i)
    ensures a == b
  {
    if ty.names.None? {
      forall i | 0 <= i < |a.items| ensures a.items[i] == b.items[i] {
        assert FieldOf(ty, a, i) == FieldOf(ty, b, i);
      }
      assert a.items == b.items;
    } else {
      var names := ty.names.value;
      forall k | k in a.fields ensures a.fields[k] == b.fields[k] {
        var i :| 0 <= i < |names| && names[i] == k;
        assert FieldOf(ty, a, i) == FieldOf(ty, b, i);
      }
      assert a.fields == b.fields;
    }
  }

  /** If every leaf's `create` rebuilds what its `flush` took apart, then the
      compound's `create`, from any store, rebuilds the flushed value. */
  lemma {:induction false} FlushThenCreate<E, V(!new)>(ty: Ty<E, V>, val: Value<V>, store: Bytes)
    requires WellFormed(ty) && IsValueOf(val, ty) && LeavesRestoreValue(ty)
    ensures Flush(ty, val).Ok? ==> Create(ty, store, Flush(ty, val).value) == Ok(val)
    decreases ty
  {
    if ty.Record? && Flush(ty, val).Ok? {
      var data := Flush(ty, val).value;
      FlushGathersFields(ty, val);
      forall i | 0 <= i < |ty.fields|
        ensures Create(ty.fields[i], Sub(store, FieldSegment(i)), data.parts[i]) == Ok(FieldOf(ty, val, i))
      {
        FlushThenCreate(ty.fields[i], FieldOf(ty, val, i), Sub(store, FieldSegment(i)));
      }
      CreateAddressesFields(ty, store, data);
      FieldsDetermineValue(ty, Create(ty, store, data).value, val);
    }
  }

  // ---------------------------------------------------------------------
  // Tuple structs and named structs share one layout
  // ---------------------------------------------------------------------

  /** A struct with named fields is created exactly as the tuple struct with
      the same field types: same success, same error, and the field named
      `names[i]` holds what position `i` holds. */
  lemma NamedAndTupleCreateAgree<E, V>(names: seq<string>, fields: seq<Ty<E, V>>, store: Bytes, data: Encoding<E>)
    requires WellFormed(Record(Some(names), fields)) && IsEncodingOf(data, Record(None, fields))
    ensures WellFormed(Record(None, fields)) && IsEncodingOf(data, Record(Some(names), fields))
    ensures Create(Record(Some(names), fields), store, data).Ok? <==> Create(Record(None, fields), store, data).Ok?
    ensures Create(Record(None, fields), store, data).Err? ==>
      Create(Record(Some(names), fields), store, data) == Create(Record(None, fields), store, data)
    ensures Create(Record(None, fields), store, data).Ok? ==>
      Create(Record(Some(names), fields), store, data) == Ok(Assemble(Some(names), Create(Record(None, fields), store, data).value.items))
  {
  }

  /** Flushing a struct with named fields gives the same encoding, or the
      same error, as flushing the tuple struct holding the same values in
      declaration order. */
  lemma NamedAndTupleFlushAgree<E, V>(names: seq<string>, fields: seq<Ty<E, V>>, items: seq<Value<V>>)
    requires WellFormed(Record(Some(names), fields)) && IsValueOf(TupleValue(items), Record(None, fields))
    ensures IsValueOf(Assemble(Some(names), items), Record(Some(names), fields))
    ensures Flush(Record(Some(names), fields), Assemble(Some(names), items)) == Flush(Record(None, fields), TupleValue(items))
  {
    var named, tuple := Record(Some(names), fields), Record(None, fields);
    var val := Assemble(Some(names), items);
    assert FieldFlushes(named, val) == FieldFlushes(tuple, TupleValue(items));
  }

  // ---------------------------------------------------------------------
  // Every leaf has a key space of its own
  // ---------------------------------------------------------------------

  /** `path` leads, field index by field index, from `ty` to a leaf. */
  predicate IsLeafPath<E, V>(ty: Ty<E, V>, path: seq<nat>)
    decreases |path|
  {
    if path == [] then ty.Leaf?
    else ty.Record? && path[0] < |ty.fields| && IsLeafPath(ty.fields[path[0]], path[1..])
  }

  /** The key prefix of the store the leaf at `path` is created from, when the
      whole value is created from the store with key prefix `store`. */
  function LeafStore<E, V>(ty: Ty<E, V>, store: Bytes, path: seq<nat>): (r: Bytes)
    requires WellFormed(ty) && IsLeafPath(ty, path)
    ensures |r| == |store| + |path| && r[..|store|] == store
    ensures path != [] ==> r[|store|] as int == path[0]
    decreases |path|
  {
    if path == [] then store
    else LeafStore(ty.fields[path[0]], Sub(store, FieldSegment(path[0])), path[1..])
  }

  /** Distinct leaves never share a key: no key under one leaf's store is
      also under another's, however deeply the structs nest. */
  lemma {:induction false} LeafStoresDisjoint<E, V>(ty: Ty<E, V>, store: Bytes, p: seq<nat>, q: seq<nat>, k1: Bytes, k2: Bytes)
    requires WellFormed(ty) && IsLeafPath(ty, p) && IsLeafPath(ty, q) && p != q
    ensures LeafStore(ty, store, p) + k1 != LeafStore(ty, store, q) + k2
    decreases |p|
  {
    assert p != [] && q != [];
    var a, b := LeafStore(ty, store, p) + k1, LeafStore(ty, store, q) + k2;
    if p[0] != q[0] {
      assert a[|store|] != b[|store|];
    } else {
      assert p == [p[0]] + p[1..] && q == [q[0]] + q[1..];
      LeafStoresDisjoint(ty.fields[p[0]], Sub(store, FieldSegment(p[0])), p[1..], q[1..], k1, k2);
    }
  }

  /** The leaf type at `path`. */
  function LeafTyAt<E, V>(ty: Ty<E, V>, path: seq<nat>): (r: Ty<E, V>)
    requires IsLeafPath(ty, path)
    ensures r.Leaf?
    decreases |path|
  {
    if path == [] then ty else LeafTyAt(ty.fields[path[0]], path[1..])
  }

  /** The component of `data` that encodes the leaf at `path`. */
  function EncodingAt<E, V>(ty: Ty<E, V>, data: Encoding<E>, path: seq<nat>): (r: Encoding<E>)
    requires IsEncodingOf(data, ty) && IsLeafPath(ty, path)
    ensures r.LeafEnc?
    decreases |path|
  {
    if path == [] then data else EncodingAt(ty.fields[path[0]], data.parts[path[0]], path[1..])
  }

  /** The leaf value at `path` inside `val`, reached field by field. */
  function ValueAt<E, V>(ty: Ty<E, V>, val: Value<V>, path: seq<nat>): (r: Value<V>)
    requires IsValueOf(val, ty) && IsLeafPath(ty, path)
    ensures r.LeafValue?
    decreases |path|
  {
    if path == [] then val else ValueAt(ty.fields[path[0]], FieldOf(ty, val, path[0]), path[1..])
  }

  /** Once a compound is created, the leaf at `path` is what that leaf's own
      `create` made of the store at `LeafStore(ty, store, path)` and the
      encoding component at the same path. */
  lemma {:induction false} LeafCreatedFromItsStore<E, V>(ty: Ty<E, V>, store: Bytes, data: Encoding<E>, path: seq<nat>)
    requires WellFormed(ty) && IsEncodingOf(data, ty) && IsLeafPath(ty, path)
    requires Create(ty, store, data).Ok?
    ensures LeafTyAt(ty, path).create(LeafStore(ty, store, path), EncodingAt(ty, data, path).e)
      == Ok(ValueAt(ty, Create(ty, store, data).value, path).v)
    decreases |path|
  {
    if path != [] {
      var i := path[0];
      CreateAddressesFields(ty, store, data);
      LeafCreatedFromItsStore(ty.fields[i], Sub(store, FieldSegment(i)), data.parts[i], path[1..]);
    }
  }

  // ---------------------------------------------------------------------
  // The macro: which items it accepts, and the impl it emits
  // ---------------------------------------------------------------------

  /** The fields of a struct as written: `{ x: T, ... }`, `(T, ...)` or none. */
  datatype Fields<!E, !V> =
    | Named(named: seq<(string, Ty<E, V>)>)
    | Unnamed(unnamed: seq<Ty<E, V>>)
    | Unit

  /** The item `#[derive(State)]` is attached to. */
  datatype ItemShape<!E, !V> = Struct(fields: Fields<E, V>) | Enum | Union

  /** One field as the macro sees it: its name, if it has one, and its type. */
  datatype Field<!E, !V> = Field(ident: Option<string>, ty: Ty<E, V>)

  /** Why expansion stops: `todo!` for enums, `panic!` for unions and for
      unit structs. */
  datatype Rejection = EnumsNotYetSupported | UnionsNotSupported | UnitStructsNotSupported

  datatype Expansion<T> = Expanded(value: T) | Aborted(reason: Rejection)

  /** `is_tuple_struct`: the item is a struct with unnamed fields. */
  function IsTupleStruct<E, V>(item: ItemShape<E, V>): (r: bool)
    ensures r <==> item.Struct? && item.fields.Unnamed?
  {
    match item
    case Struct(Unnamed(_)) => true
    case _ => false
  }

  /** `struct_fields`: the declared fields, in order, of a struct with named
      or unnamed fields; every other shape stops the expansion. */
  function StructFields<E, V>(item: ItemShape<E, V>): (r: Expansion<seq<Field<E, V>>>)
    ensures r.Expanded? <==> item.Struct? && !item.fields.Unit?
    ensures item.Enum? ==> r == Aborted(EnumsNotYetSupported)
    ensures item.Union? ==> r == Aborted(UnionsNotSupported)
    ensures item.Struct? && item.fields.Unit? ==> r == Aborted(UnitStructsNotSupported)
    ensures item.Struct? && item.fields.Named? ==>
      |r.value| == |item.fields.named| &&
      forall i :: 0 <= i < |r.value| ==> r.value[i] == Field(Some(item.fields.named[i].0), item.fields.named[i].1)
    ensures item.Struct? && item.fields.Unnamed? ==>
      |r.value| == |item.fields.unnamed| &&
      forall i :: 0 <= i < |r.value| ==> r.value[i] == Field(None, item.fields.unnamed[i])
  {
    match item
    case Enum => Aborted(EnumsNotYetSupported)
    case Union => Aborted(UnionsNotSupported)
    case Struct(Unit) => Aborted(UnitStructsNotSupported)
    case Struct(Named(named)) =>
      Expanded(seq(|named|, i requires 0 <= i < |named| => Field(Some(named[i].0), named[i].1)))
    case Struct(Unnamed(unnamed)) =>
      Expanded(seq(|unnamed|, i requires 0 <= i < |unnamed| => Field(None, unnamed[i])))
  }

  /** `seq`: the field indexes `0, 1, ..., n - 1`, in order. */
  function Seq(n: nat): (r: seq<nat>)
    ensures |r| == n
    ensures forall i :: 0 <= i < n ==> r[i] == i
  {
    if n == 0 then [] else Seq(n - 1) + [n - 1]
  }

  /** The number of fields the item declares. */
  function DeclaredCount<E, V>(fields: Fields<E, V>): nat
  {
    match fields
    case Named(named) => |named|
    case Unnamed(unnamed) => |unnamed|
    case Unit => 0
  }

  /** `derive`: the `State` impl emitted for `item`, as the type it makes
      `item` into, or the reason expansion stops. The impl's `Encoding`,
      `create` and `flush` are `IsEncodingOf`, `Create` and `Flush` of that
      type. */
  function Derive<E, V>(item: ItemShape<E, V>): (r: Expansion<Ty<E, V>>)
    ensures r.Expanded? <==> item.Struct? && !item.fields.Unit?
    ensures r.Aborted? ==> r.reason == StructFields(item).reason
    ensures r.Expanded? ==>
      && r.value.Record?
      && (r.value.names.None? <==> IsTupleStruct(item))
      && |r.value.fields| == DeclaredCount(item.fields)
    ensures item.Struct? && item.fields.Named? ==>
      var named := item.fields.named;
      && r.value.names.Some?
      && |r.value.names.value| == |named|
      && forall i :: 0 <= i < |named| ==>
           r.value.names.value[i] == named[i].0 && r.value.fields[i] == named[i].1
    ensures item.Struct? && item.fields.Unnamed? ==> r.value.fields == item.fields.unnamed
  {
    match StructFields(item)
    case Aborted(reason) => Aborted(reason)
    case Expanded(fields) =>
      var types := seq(|fields|, i requires 0 <= i < |fields| => fields[i].ty);
      if IsTupleStruct(item) then Expanded(Record(None, types))
      else Expanded(Record(Some(seq(|fields|, i requires 0 <= i < |fields| => fields[i].ident.value)), types))
  }

  /** The emitted `type Encoding` is the tuple of the declared fields'
      encodings: one component per declared field, in declaration order,
      component `i` an encoding of the `i`-th declared type. */
  lemma DerivedEncoding<E, V>(item: ItemShape<E, V>, data: Encoding<E>)
    requires Derive(item).Expanded?
    ensures IsEncodingOf(data, Derive(item).value) ==>
      data.TupleEnc? && |data.parts| == DeclaredCount(item.fields)
    ensures item.fields.Named? ==>
      (IsEncodingOf(data, Derive(item).value) <==>
        && data.TupleEnc? && |data.parts| == |item.fields.named|
        && forall i :: 0 <= i < |data.parts| ==> IsEncodingOf(data.parts[i], item.fields.named[i].1))
    ensures item.fields.Unnamed? ==>
      (IsEncodingOf(data, Derive(item).value) <==>
        && data.TupleEnc? && |data.parts| == |item.fields.unnamed|
        && forall i :: 0 <= i < |data.parts| ==> IsEncodingOf(data.parts[i], item.fields.unnamed[i]))
  {
  }
}
