/**
 Shared value types: an optional value, the crate's error kinds, and a
 result that carries either a value or one of those errors.
 */
module Common {

  datatype Option<+T> = None | Some(value: T) {
    function UnwrapOr(default: T): (r: T)
      ensures Some? ==> r == value
      ensures None? ==> r == default
    {
      match this
      case Some(v) => v
      case None => default
    }
  }

  /** The error kinds the modelled code can produce. The messages of
      `Other` and `WorkspaceIntegrity` are kept as plain strings. */
  datatype Error =
    | InheritedUnknownValue
    | Other(message: string)
    | WorkspaceIntegrity(message: string)

  datatype Result<+T> = Ok(value: T) | Err(error: Error) {
    predicate IsFailure() {
      Err?
    }

    function PropagateFailure<U>(): Result<U>
      requires Err?
    {
      Err(error)
    }

    function Extract(): T
      requires Ok?
    {
      value
    }
  }

  /** The part of `toml::Value` the modelled code looks at; every other kind of
      TOML value (float, datetime, array, table) is `OtherValue`. Integers
      are 64-bit in TOML; the decoders only compare them with small
      constants, so they are unbounded here. */
  datatype Value = Boolean(b: bool) | Integer(n: int) | Str(s: string) | OtherValue

  /** The model of a `BTreeMap<String, V>` as the sequence of its entries.
      A `BTreeMap` gives them in key order with distinct keys; the type
      does not require either, and members that need distinct keys say
      so with `DistinctKeys`. */
  type Table<V> = seq<(string, V)>

  ghost predicate DistinctKeys<V>(t: Table<V>) {
    forall i, j :: 0 <= i < j < |t| ==> t[i].0 != t[j].0
  }

  function KeysOf<V>(t: Table<V>): (ks: set<string>)
    ensures forall i :: 0 <= i < |t| ==> t[i].0 in ks
    ensures forall k :: k in ks ==> exists i :: 0 <= i < |t| && t[i].0 == k
  {
    set i | 0 <= i < |t| :: t[i].0
  }

  /** The first `n` entries of a table, as `iter().take(n)` yields them. */
  function Take<V>(t: Table<V>, n: nat): (r: Table<V>)
    ensures |r| == if |t| < n then |t| else n
    ensures forall i :: 0 <= i < |r| ==> r[i] == t[i]
  {
    if |t| <= n then t else t[..n]
  }
}
