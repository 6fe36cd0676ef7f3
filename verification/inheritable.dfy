/**
 A manifest property that is either set in the package itself or still to
 be copied from the workspace (`Inheritable<T>`).
 */
module Inheritable {
  import opened Common

  /** `workspace` is the flag read from `{ workspace = true }`; every value
      this module builds carries `true`. */
  datatype Inheritable<T> = Set(value: T) | Inherited(workspace: bool)

  /** `as_ref` (and `as_mut`, which is the same in a value model): keeps a
      set value and normalises an inherited marker. */
  function AsRef<T>(x: Inheritable<T>): (r: Inheritable<T>)
    ensures r.Set? <==> x.Set?
    ensures r.Set? ==> r.value == x.value
    ensures r.Inherited? ==> r.workspace
  {
    match x
    case Set(t) => Set(t)
    case Inherited(_) => Inherited(true)
  }

  /** `is_set`: the value can be read. */
  function IsSet<T>(x: Inheritable<T>): (r: bool)
    ensures r <==> Get(x).Ok?
  {
    x.Set?
  }

  /** `get` (and `get_mut`): the value if it is known. */
  function Get<T>(x: Inheritable<T>): (r: Result<T>)
    ensures r.Ok? <==> x.Set?
    ensures r.Ok? ==> r.value == x.value
    ensures r.Err? ==> r.error == InheritedUnknownValue
  {
    match x
    case Set(t) => Ok(t)
    case Inherited(_) => Err(InheritedUnknownValue)
  }

  /** `set`: the cell after assigning `v`. */
  function SetValue<T>(x: Inheritable<T>, v: T): (r: Inheritable<T>)
    ensures IsSet(r)
    ensures Get(r) == Ok(v)
  {
    Set(v)
  }

  /** `unwrap`, whose inherited case panics. */
  function Unwrap<T>(x: Inheritable<T>): (r: T)
    requires IsSet(x)
    ensures Get(x) == Ok(r)
  {
    x.value
  }

  /** `inherit`: copy the workspace value in, unless a value is set. */
  function Inherit<T>(x: Inheritable<T>, other: T): (r: Inheritable<T>)
    ensures IsSet(r)
    ensures IsSet(x) ==> r == x
    ensures !IsSet(x) ==> Get(r) == Ok(other)
  {
    match x
    case Set(_) => x
    case Inherited(_) => Set(other)
  }

  lemma InheritIdempotent<T>(x: Inheritable<T>, other: T, another: T)
    ensures Inherit(Inherit(x, other), another) == Inherit(x, other)
  {
  }

  /** `Default`: the set default of the wrapped type. */
  function Default<T>(typeDefault: T): (r: Inheritable<T>)
    ensures IsDefault(r, typeDefault)
  {
    Set(typeDefault)
  }

  /** `is_empty` on a list-valued cell: unknown counts as not empty. */
  function IsEmpty<E>(x: Inheritable<seq<E>>): (r: bool)
    ensures r <==> IsSet(x) && |x.value| == 0
  {
    match x
    case Inherited(_) => false
    case Set(v) => |v| == 0
  }

  /** `is_default`: unknown counts as not default. */
  function IsDefault<T(==)>(x: Inheritable<T>, typeDefault: T): (r: bool)
    ensures r <==> Get(x) == Ok(typeDefault)
  {
    match x
    case Inherited(_) => false
    case Set(v) => typeDefault == v
  }

  /** `From<Option<T>>`: a missing value means "inherit". */
  function FromOption<T>(o: Option<T>): (r: Inheritable<T>)
    ensures IsSet(r) <==> o.Some?
    ensures o.Some? ==> Get(r) == Ok(o.value)
    ensures r.Inherited? ==> r.workspace
  {
    match o
    case Some(v) => Set(v)
    case None => Inherited(true)
  }

  /** `From<Inheritable<T>> for Option<T>`: inherited becomes `None`. */
  function ToOption<T>(x: Inheritable<T>): (r: Option<T>)
    ensures r.Some? <==> IsSet(x)
    ensures r.Some? ==> Get(x) == Ok(r.value)
  {
    match x
    case Inherited(_) => None
    case Set(v) => Some(v)
  }

  lemma OptionRoundTrip<T>(o: Option<T>)
    ensures ToOption(FromOption(o)) == o
  {
  }

  /** The other direction is the identity exactly on cells whose inherited
      marker is the normal `workspace = true`. */
  lemma InheritableRoundTrip<T>(x: Inheritable<T>)
    ensures FromOption(ToOption(x)) == x <==> IsSet(x) || x.workspace
  {
  }

  /** Converting through `Option` is what `as_ref` does. */
  lemma RoundTripIsAsRef<T>(x: Inheritable<T>)
    ensures FromOption(ToOption(x)) == AsRef(x)
  {
  }
}
