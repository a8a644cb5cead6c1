/** The double-buffered cell and its halo sentinel. A Live cell is a `Cell<T>`
    holding a current and a future value; a Halo cell is an `OutOfBoundsCell<T>`,
    which holds only a pointer to the grid's one shared default value. That
    pointer is null until the grid binds it, so a Halo carries a flag saying
    whether it has been bound; the value it points at is passed in as `shared`. */
module Cells {
  import opened Errors

  datatype Cell<T> = Live(value: T, future: T) | Halo(bound: bool)

  /** A cell whose read would not dereference a null pointer. */
  predicate Readable<T>(c: Cell<T>) {
    c.Live? || c.bound
  }

  /** `get()`: the current value, or for a halo the shared default. */
  function Get<T>(c: Cell<T>, shared: T): (v: T)
    requires Readable(c)
    ensures c.Halo? ==> v == shared
    ensures c.Live? ==> v == c.value
  {
    match c
    case Live(value, _) => value
    case Halo(_) => shared
  }

  /** `getFuture()`: the future slot; a halo has none and throws. */
  function GetFuture<T>(c: Cell<T>): (r: Result<T>)
    ensures r.Err? <==> c.Halo?
    ensures r.Err? ==> r.error == InvalidOperation
    ensures r.Ok? ==> r.value == c.future
  {
    match c
    case Live(_, future) => Ok(future)
    case Halo(_) => Err(InvalidOperation)
  }

  /** `isOutOfBounds()` of a cell. */
  predicate CellIsOutOfBounds<T>(c: Cell<T>): (b: bool)
    ensures b <==> GetFuture(c).Err?
  {
    c.Halo?
  }

  /** `set(val)` on a live cell: both buffers take the value. */
  function Set<T>(c: Cell<T>, v: T): (r: Cell<T>)
    requires c.Live?
    ensures r.Live? && r.value == v && r.future == v
  {
    Live(v, v)
  }

  /** The update rule writing through the pointer `getFuture()` returned. */
  function WithFuture<T>(c: Cell<T>, f: T): (r: Cell<T>)
    requires c.Live?
    ensures r.Live? && r.value == c.value && GetFuture(r) == Ok(f)
  {
    c.(future := f)
  }

  /** `incrementTime()`: commit the future value; a no-op on a halo. */
  function IncrementTime<T>(c: Cell<T>): (r: Cell<T>)
    ensures c.Halo? ==> r == c
    ensures c.Live? ==> r.Live? && r.value == c.future && r.future == c.future
  {
    match c
    case Live(_, future) => Live(future, future)
    case Halo(_) => c
  }

  /** `OutOfBoundsCell::set(ptr)`: point the halo at the shared default. */
  function Bind<T>(c: Cell<T>): (r: Cell<T>)
    requires c.Halo?
    ensures r.Halo? && Readable(r)
  {
    Halo(true)
  }

  /** A value written with `set` survives the next commit unchanged, and
      committing twice is the same as committing once. */
  lemma SetIsStableUnderCommit<T>(c: Cell<T>, v: T)
    requires c.Live?
    ensures IncrementTime(Set(c, v)) == Set(c, v)
    ensures IncrementTime(IncrementTime(c)) == IncrementTime(c)
  {
  }

  /** After a commit, the future slot starts equal to the current value, so the
      update rule receives the committed value as its argument. */
  lemma CommitAlignsBuffers<T>(c: Cell<T>, shared: T)
    requires Readable(c)
    ensures Readable(IncrementTime(c))
    ensures c.Live? ==> GetFuture(IncrementTime(c)) == Ok(Get(IncrementTime(c), shared))
    ensures c.Halo? ==> Get(IncrementTime(c), shared) == shared
  {
  }
}
