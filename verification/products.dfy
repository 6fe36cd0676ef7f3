/**
 Build products (`[[bin]]`, `[[example]]`, `[[test]]`, `[[bench]]`) and
 their deterministic ordering, the `publish` setting compared with a
 boolean, and the edition's minimum compiler version.
 */
module Products {
  import opened Common
  import opened Strings

  datatype Edition = E2015 | E2018 | E2021 | E2024

  /** A build product; only `name` and `path` take part in ordering, and
      `requiredFeatures` is read by the feature resolver. */
  datatype Product = Product(
    path: Option<string>,
    name: Option<string>,
    test: bool,
    doctest: bool,
    bench: bool,
    doc: bool,
    plugin: bool,
    procMacro: bool,
    harness: bool,
    edition: Edition,
    crateType: seq<string>,
    requiredFeatures: seq<string>)

  /** `Option<String>`'s `Ord`: `None` before any `Some`, and `Some`s by
      their strings. */
  function CompareOption(a: Option<string>, b: Option<string>): Ordering {
    match (a, b)
    case (None, None) => Equal
    case (None, Some(_)) => Less
    case (Some(_), None) => Greater
    case (Some(x), Some(y)) => Compare(x, y)
  }

  /** The comparator of `sort_products`: by name, then by path. Products
      compare equal exactly when both keys agree. */
  function CompareProducts(a: Product, b: Product): (r: Ordering)
    ensures r == Equal <==> a.name == b.name && a.path == b.path
    ensures r == (if a.name != b.name then CompareOption(a.name, b.name) else CompareOption(a.path, b.path))
  {
    CompareOptionEqual(a.name, b.name);
    CompareOptionEqual(a.path, b.path);
    CompareOption(a.name, b.name).Then(CompareOption(a.path, b.path))
  }

  lemma CompareOptionEqual(a: Option<string>, b: Option<string>)
    ensures CompareOption(a, b) == Equal <==> a == b
  {
    if a.Some? && b.Some? {
      CompareEqual(a.value, b.value);
    }
  }

  predicate ProductLe(a: Product, b: Product) {
    CompareProducts(a, b) != Greater
  }

  ghost predicate SortedProducts(s: seq<Product>) {
    forall i, j :: 0 <= i < j < |s| ==> ProductLe(s[i], s[j])
  }

  lemma CompareOptionAntisymmetric(a: Option<string>, b: Option<string>)
    ensures CompareOption(b, a) == CompareOption(a, b).Reverse()
    ensures CompareOption(a, b) == Equal <==> a == b
  {
    if a.Some? && b.Some? {
      CompareAntisymmetric(a.value, b.value);
      CompareEqual(a.value, b.value);
    }
  }

  lemma CompareOptionTransitive(a: Option<string>, b: Option<string>, c: Option<string>)
    requires CompareOption(a, b) != Greater && CompareOption(b, c) != Greater
    ensures CompareOption(a, c) != Greater
  {
    if a.Some? && b.Some? && c.Some? {
      CompareTransitive(a.value, b.value, c.value);
    }
  }

  lemma CompareOptionStrict(a: Option<string>, b: Option<string>, c: Option<string>)
    requires CompareOption(a, b) != Greater && CompareOption(b, c) != Greater
    requires CompareOption(a, b) == Less || CompareOption(b, c) == Less
    ensures CompareOption(a, c) == Less
  {
    CompareOptionTransitive(a, b, c);
    CompareOptionAntisymmetric(a, b);
    CompareOptionAntisymmetric(b, c);
    CompareOptionAntisymmetric(a, c);
  }

  /** Any two products are ordered one way or the other. */
  lemma ProductLeTotal(a: Product, b: Product)
    ensures ProductLe(a, b) || ProductLe(b, a)
  {
    CompareOptionAntisymmetric(a.name, b.name);
    CompareOptionAntisymmetric(a.path, b.path);
  }

  lemma {:induction false} ProductLeTransitive(a: Product, b: Product, c: Product)
    requires ProductLe(a, b) && ProductLe(b, c)
    ensures ProductLe(a, c)
  {
    var ab := CompareOption(a.name, b.name);
    var bc := CompareOption(b.name, c.name);
    CompareOptionTransitive(a.name, b.name, c.name);
    CompareOptionAntisymmetric(a.name, b.name);
    CompareOptionAntisymmetric(b.name, c.name);
    if ab == Less || bc == Less {
      CompareOptionStrict(a.name, b.name, c.name);
    } else {
      assert a.name == b.name && b.name == c.name;
      CompareOptionAntisymmetric(a.name, c.name);
      CompareOptionTransitive(a.path, b.path, c.path);
    }
  }

  /** Inserts `p` into sorted `s` after every product not greater than it. */
  function Insert(p: Product, s: seq<Product>): (r: seq<Product>)
    requires SortedProducts(s)
    ensures SortedProducts(r)
    ensures multiset(r) == multiset(s) + multiset{p}
    ensures |r| == |s| + 1
  {
    if |s| == 0 then [p]
    else if ProductLe(p, s[0]) then
      InsertFront(p, s);
      [p] + s
    else
      ProductLeTotal(p, s[0]);
      var rest := Insert(p, s[1..]);
      assert s == [s[0]] + s[1..];
      InsertedAfter(p, s, rest);
      [s[0]] + rest
  }

  lemma InsertFront(p: Product, s: seq<Product>)
    requires SortedProducts(s) && |s| > 0 && ProductLe(p, s[0])
    ensures SortedProducts([p] + s)
  {
    forall j | 1 <= j < |s| + 1
      ensures ProductLe(([p] + s)[0], ([p] + s)[j])
    {
      if j > 1 {
        ProductLeTransitive(p, s[0], s[j - 1]);
      }
    }
  }

  lemma InsertedAfter(p: Product, s: seq<Product>, rest: seq<Product>)
    requires SortedProducts(s) && |s| > 0 && ProductLe(s[0], p)
    requires SortedProducts(rest)
    requires multiset(rest) == multiset(s[1..]) + multiset{p}
    ensures SortedProducts([s[0]] + rest)
  {
    forall j | 0 <= j < |rest|
      ensures ProductLe(s[0], rest[j])
    {
      assert rest[j] in multiset(rest);
      if rest[j] == p {
      } else {
        assert rest[j] in multiset(s[1..]);
        var k :| 0 <= k < |s[1..]| && s[1..][k] == rest[j];
        assert s[k + 1] == rest[j];
      }
    }
  }

  /** `sort_products`: the same products, ordered by name and then path,
      with a missing name or path first. Products that compare equal may
      come in any order in the source (`sort_unstable_by`); the contract
      does not fix their order either. */
  function SortProducts(ps: seq<Product>): (r: seq<Product>)
    ensures SortedProducts(r)
    ensures multiset(r) == multiset(ps)
  {
    if |ps| == 0 then []
    else
      assert ps == ps[..|ps| - 1] + [ps[|ps| - 1]];
      Insert(ps[|ps| - 1], SortProducts(ps[..|ps| - 1]))
  }

  /** The `publish` setting: a flag, or the registries allowed. */
  datatype Publish = Flag(flag: bool) | Registry(registries: seq<string>)

  /** Whether the setting lets the package be published anywhere. */
  predicate Publishable(p: Publish) {
    match p
    case Flag(f) => f
    case Registry(regs) => |regs| > 0
  }

  /** `impl PartialEq<Publish> for bool`. */
  predicate BoolEqPublish(b: bool, p: Publish) {
    match p
    case Flag(flag) => flag == b
    case Registry(reg) => (|reg| == 0) != b
  }

  /** `impl PartialEq<bool> for Publish` (and for `&Publish`, and
      `PartialEq<&Publish> for bool`), which all defer to the impl above. */
  predicate PublishEqBool(p: Publish, b: bool) {
    BoolEqPublish(b, p)
  }

  /** Comparing with a boolean asks whether the package may be published,
      so a setting equals exactly one of the two booleans. */
  lemma PublishEqualityMeansPublishable(p: Publish, b: bool)
    ensures BoolEqPublish(b, p) <==> Publishable(p) == b
    ensures PublishEqBool(p, true) != PublishEqBool(p, false)
  {
  }

  /** `Publish::default()` is publishing allowed, which `is_default` tests. */
  function DefaultPublish(): (p: Publish)
    ensures PublishIsDefault(p) && PublishEqBool(p, true)
  {
    Flag(true)
  }

  predicate PublishIsDefault(p: Publish) {
    p.Flag? && p.flag
  }

  /** `min_rust_version_minor`; the 2024 edition panics. */
  function MinRustVersionMinor(e: Edition): (r: nat)
    requires e != E2024
    ensures r >= 1
  {
    match e
    case E2015 => 1
    case E2018 => 31
    case E2021 => 56
  }

  function EditionYear(e: Edition): nat {
    match e
    case E2015 => 2015
    case E2018 => 2018
    case E2021 => 2021
    case E2024 => 2024
  }

  /** A later edition needs a strictly newer compiler. */
  lemma MinRustVersionMonotonic(a: Edition, b: Edition)
    requires a != E2024 && b != E2024
    ensures EditionYear(a) < EditionYear(b) <==> MinRustVersionMinor(a) < MinRustVersionMinor(b)
  {
  }
}
