/** `Shared<T>`: a cloneable handle to one store, `Rc<RefCell<T>>` underneath.
    The reference count is the Dafny heap reference; the `RefCell` is the
    `StoreCell` object, whose borrow state is tracked explicitly. */
module Share {
  import opened Stores

  /** The borrow state of a `RefCell`: any number of shared borrows, or one
      exclusive borrow, or none. */
  datatype BorrowState = Unborrowed | Reading(count: nat) | Writing

  /** What the inner store answers to `get`: the stored value, or the
      backend's error when it fails. */
  function ReadResult(fault: Option<Error>, m: map<Bytes, Bytes>, key: Bytes): (r: Result<Option<Bytes>>)
    ensures fault.Some? ==> r == Err(fault.value)
    ensures fault.None? ==> r.Ok? && (r.value.Some? <==> key in m)
    ensures fault.None? && key in m ==> r.value.value == m[key]
  {
    if fault.Some? then Err(fault.value) else Ok(Lookup(m, key))
  }

  /** What the inner store answers to `put` and `delete`. */
  function WriteResult(fault: Option<Error>): (r: Result<()>)
    ensures r.Err? <==> fault.Some?
    ensures fault.Some? ==> r.error == fault.value
  {
    if fault.Some? then Err(fault.value) else Ok(())
  }

  /** The `RefCell<T>` a `Shared` points to. `data` is the inner store's
      contents; `fault`, when set, is the error every call of the inner store
      returns (a failing backend), in which case nothing is written. */
  class StoreCell {
    var data: map<Bytes, Bytes>
    const fault: Option<Error>
    var borrow: BorrowState

    constructor (data: map<Bytes, Bytes>, fault: Option<Error>)
      ensures this.data == data && this.fault == fault && borrow == Unborrowed
    {
      this.data := data;
      this.fault := fault;
      borrow := Unborrowed;
    }

    /** The inner store's `get`, reached only through an active borrow. */
    method Get(key: Bytes) returns (r: Result<Option<Bytes>>)
      requires borrow != Unborrowed
      ensures r == ReadResult(fault, data, key)
    {
      r := ReadResult(fault, data, key);
    }

    /** The inner store's `put`, reached only through an exclusive borrow. */
    method Put(key: Bytes, value: Bytes) returns (r: Result<()>)
      requires borrow == Writing
      modifies this`data
      ensures r == WriteResult(fault)
      ensures data == if fault.None? then Stores.Put(old(data), key, value) else old(data)
    {
      if fault.None? {
        data := Stores.Put(data, key, value);
      }
      r := WriteResult(fault);
    }

    /** The inner store's `delete`, reached only through an exclusive borrow. */
    method Delete(key: Bytes) returns (r: Result<()>)
      requires borrow == Writing
      modifies this`data
      ensures r == WriteResult(fault)
      ensures data == if fault.None? then Stores.Delete(old(data), key) else old(data)
    {
      if fault.None? {
        data := Stores.Delete(data, key);
      }
      r := WriteResult(fault);
    }
  }

  /** A handle to a shared store. Every clone holds the same `cell`. */
  class Shared {
    const cell: StoreCell

    /** `Shared::new`: wraps a store holding `data` in a fresh cell. */
    constructor (data: map<Bytes, Bytes>, fault: Option<Error>)
      ensures fresh(cell)
      ensures cell.data == data && cell.fault == fault && cell.borrow == Unborrowed
    {
      cell := new StoreCell(data, fault);
    }

    constructor Alias(cell: StoreCell)
      ensures this.cell == cell
    {
      this.cell := cell;
    }

    /** `clone`: a new handle to the same cell; nothing is copied and the
        store is left as it was. */
    method Clone() returns (h: Shared)
      ensures fresh(h) && h != this
      ensures h.cell == cell
    {
      h := new Shared.Alias(cell);
    }

    /** `get`: holds a shared borrow for exactly the length of the inner call
        and answers what the inner store answers, error included. */
    method Get(key: Bytes) returns (r: Result<Option<Bytes>>)
      requires cell.borrow != Writing
      modifies cell`borrow
      ensures r == ReadResult(cell.fault, cell.data, key)
      ensures cell.borrow == old(cell.borrow)
      ensures cell.data == old(cell.data)
    {
      var before := cell.borrow;
      cell.borrow := if before.Reading? then Reading(before.count + 1) else Reading(1);
      r := cell.Get(key);
      cell.borrow := before;
    }

    /** `put`: holds the exclusive borrow for exactly the length of the inner
        call and answers what the inner store answers, error included. */
    method Put(key: Bytes, value: Bytes) returns (r: Result<()>)
      requires cell.borrow == Unborrowed
      modifies cell
      ensures r == WriteResult(cell.fault)
      ensures cell.data == if cell.fault.None? then Stores.Put(old(cell.data), key, value) else old(cell.data)
      ensures cell.borrow == Unborrowed
    {
      cell.borrow := Writing;
      r := cell.Put(key, value);
      cell.borrow := Unborrowed;
    }

    /** `delete`: as `put`, passing the call through under the exclusive
        borrow. */
    method Delete(key: Bytes) returns (r: Result<()>)
      requires cell.borrow == Unborrowed
      modifies cell
      ensures r == WriteResult(cell.fault)
      ensures cell.data == if cell.fault.None? then Stores.Delete(old(cell.data), key) else old(cell.data)
      ensures cell.borrow == Unborrowed
    {
      cell.borrow := Writing;
      r := cell.Delete(key);
      cell.borrow := Unborrowed;
    }
  }

  /** A `put` through one handle is seen at once by `get` through any handle
      of the same cell. With the modelled backend, which fails every call with
      one fixed error, that error reaches both callers. */
  method PutVisibleThroughAlias(writer: Shared, reader: Shared, key: Bytes, value: Bytes)
    returns (put: Result<()>, got: Result<Option<Bytes>>)
    requires writer.cell == reader.cell && writer.cell.borrow == Unborrowed
    modifies writer.cell
    ensures writer.cell.fault.None? ==> put == Ok(()) && got == Ok(Some(value))
    ensures writer.cell.fault.Some? ==> put == Err(writer.cell.fault.value) && got == Err(writer.cell.fault.value)
    ensures reader.cell.borrow == Unborrowed
  {
    put := writer.Put(key, value);
    got := reader.Get(key);
  }

  /** A later `put` to the same key through a second handle replaces the
      value that every handle of the cell reads. */
  method LaterPutOverwrites(first: Shared, second: Shared, other: Shared, key: Bytes, v1: Bytes, v2: Bytes)
    returns (got: Result<Option<Bytes>>)
    requires first.cell == second.cell == other.cell
    requires first.cell.borrow == Unborrowed && first.cell.fault.None?
    modifies first.cell
    ensures got == Ok(Some(v2))
    ensures first.cell.data == old(first.cell.data)[key := v2]
  {
    var _ := first.Put(key, v1);
    var _ := second.Put(key, v2);
    got := other.Get(key);
  }

  /** The scenario of the module's unit test: a store, two clones of it, a
      `put` through a clone seen by all three, then a `put` through the
      original seen by all three. */
  method ShareScenario()
    returns (a0: Result<Option<Bytes>>, a1: Result<Option<Bytes>>, a2: Result<Option<Bytes>>,
             b0: Result<Option<Bytes>>, b1: Result<Option<Bytes>>, b2: Result<Option<Bytes>>)
    ensures a0 == a1 == a2 == Ok(Some([5]))
    ensures b0 == b1 == b2 == Ok(Some([6]))
  {
    var store := new Shared(map[], None);
    var share0 := store.Clone();
    var share1 := store.Clone();

    var _ := share0.Put([123], [5]);
    a0 := store.Get([123]);
    a1 := share0.Get([123]);
    a2 := share1.Get([123]);

    var _ := store.Put([123], [6]);
    b0 := store.Get([123]);
    b1 := share0.Get([123]);
    b2 := share1.Get([123]);
  }
}
