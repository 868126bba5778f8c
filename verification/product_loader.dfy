/** Services.NotificationInfoLoader: the product-aware catalog. Notifications
    are kept per product, each product with its own ordered list of entries;
    lookups are cached under the client's version string, and a rescan flag
    that nothing ever clears makes every lookup reload the catalog first. */
module ProductLoader {
  import opened Runtime
  import opened Notifications
  import opened Eligibility
  import UserIOData

  /** One notification file as the loader reads it: the product of the folder
      it sits in (`None` for the top folder), its version bound and the notification. */
  datatype Record = Record(Product: Option<string>, Bound: seq<Int32>, Note: Notification)

  /** `Notifications`: product name to its list of entries. */
  type Catalog = map<string, seq<Entry>>

  /** The catalog after `AddNotification(product, bound, n)` with a non-null product. */
  function Added(catalog: Catalog, product: string, e: Entry): (r: Catalog)
    ensures r.Keys == catalog.Keys + {product}
    ensures product in catalog ==> r[product] == catalog[product] + [e]
    ensures product !in catalog ==> r[product] == [e]
    ensures forall q :: q in catalog && q != product ==> r[q] == catalog[q]
  {
    catalog[product := (if product in catalog then catalog[product] else []) + [e]]
  }

  /** The catalog that loading the records one by one, in order, builds from
      an empty one; the first record without a product makes it throw. */
  function Load(records: seq<Record>): Result<Catalog>
  {
    if records == [] then Ok(map[])
    else
      match Load(records[..|records| - 1])
      case Err(e) => Err(e)
      case Ok(catalog) =>
        var last := records[|records| - 1];
        if last.Product.None? then Err(ArgumentNullException)
        else Ok(Added(catalog, last.Product.value, Entry(last.Bound, last.Note)))
  }

  /** Reference definition of one product's list: the entries of the records
      of that product, in record order. */
  function Group(records: seq<Record>, product: string): seq<Entry>
  {
    if records == [] then []
    else
      var last := records[|records| - 1];
      Group(records[..|records| - 1], product) +
      (if last.Product == Some(product) then [Entry(last.Bound, last.Note)] else [])
  }

  /** Loading throws exactly when some record has no product, and then with
      ArgumentNullException. */
  lemma {:induction false} LoadFails(records: seq<Record>)
    ensures Load(records).Err? <==> exists i :: 0 <= i < |records| && records[i].Product.None?
    ensures Load(records).Err? ==> Load(records).error == ArgumentNullException
  {
    if records != [] {
      var front := records[..|records| - 1];
      LoadFails(front);
      if exists i :: 0 <= i < |records| && records[i].Product.None? {
        var i :| 0 <= i < |records| && records[i].Product.None?;
        if i < |front| {
          assert front[i] == records[i];
        }
      } else {
        forall i | 0 <= i < |front| ensures front[i].Product.Some? {
          assert front[i] == records[i];
        }
      }
    }
  }

  /** A successful load has a list for exactly the products that occur in the records. */
  lemma {:induction false} LoadKeys(records: seq<Record>)
    requires Load(records).Ok?
    ensures forall p :: p in Load(records).value <==> exists i :: 0 <= i < |records| && records[i].Product == Some(p)
  {
    if records != [] {
      var front := records[..|records| - 1];
      var last := records[|records| - 1];
      LoadKeys(front);
      var catalog := Load(front).value;
      var e := Entry(last.Bound, last.Note);
      assert Load(records).value == Added(catalog, last.Product.value, e);
      forall p ensures p in Load(records).value <==> exists i :: 0 <= i < |records| && records[i].Product == Some(p) {
        if p in catalog {
          var i :| 0 <= i < |front| && front[i].Product == Some(p);
          assert records[i] == front[i];
        }
        if exists i :: 0 <= i < |records| && records[i].Product == Some(p) {
          var i :| 0 <= i < |records| && records[i].Product == Some(p);
          if i < |front| {
            assert front[i] == records[i];
          }
        }
      }
    }
  }

  /** In a successful load, each product's list holds that product's entries in record order. */
  lemma {:induction false} LoadGroups(records: seq<Record>)
    requires Load(records).Ok?
    ensures forall p :: p in Load(records).value ==> Load(records).value[p] == Group(records, p)
  {
    if records != [] {
      var front := records[..|records| - 1];
      var last := records[|records| - 1];
      LoadGroups(front);
      var catalog := Load(front).value;
      var p0 := last.Product.value;
      var e := Entry(last.Bound, last.Note);
      assert Load(records).value == Added(catalog, p0, e);
      forall p | p in Load(records).value ensures Load(records).value[p] == Group(records, p) {
        if p != p0 {
          assert Group(records, p) == Group(front, p) + [];
        } else if p !in catalog {
          LoadKeys(front);
          forall i | 0 <= i < |front| ensures front[i].Product != Some(p) {
          }
          NoRecordNoGroup(front, p);
          assert Group(records, p) == [] + [e];
        }
      }
    }
  }

  lemma {:induction false} NoRecordNoGroup(records: seq<Record>, product: string)
    requires forall i :: 0 <= i < |records| ==> records[i].Product != Some(product)
    ensures Group(records, product) == []
  {
    if records != [] {
      var front := records[..|records| - 1];
      forall i | 0 <= i < |front| ensures front[i].Product != Some(product) {
        assert front[i] == records[i];
      }
      NoRecordNoGroup(front, product);
    }
  }

  /** The entries of the lists named by `order`, list after list. */
  function Flatten(catalog: Catalog, order: seq<string>): seq<Entry>
    requires forall k :: k in order ==> k in catalog
  {
    if order == [] then []
    else Flatten(catalog, order[..|order| - 1]) + catalog[order[|order| - 1]]
  }

  /** `order` lists every element of `keys` exactly once: an order in which a
      dictionary may enumerate its keys. */
  ghost predicate IsEnumeration(order: seq<string>, keys: set<string>)
  {
    (forall i, j :: 0 <= i < j < |order| ==> order[i] != order[j]) &&
    (forall k :: k in order <==> k in keys)
  }

  /** Enumerations of two disjoint sets, one after the other, enumerate their union. */
  lemma EnumerationJoin(a: seq<string>, b: seq<string>, s: set<string>, t: set<string>)
    requires IsEnumeration(a, s) && IsEnumeration(b, t) && s !! t
    ensures IsEnumeration(a + b, s + t)
  {
    forall i, j | 0 <= i < j < |a + b| ensures (a + b)[i] != (a + b)[j] {
      if i < |a| && j >= |a| {
        assert (a + b)[i] in s && (a + b)[j] in t;
      }
    }
  }

  /** Some enumeration of a set of keys. */
  ghost function SomeEnumeration(s: set<string>): (r: seq<string>)
    ensures IsEnumeration(r, s)
    decreases s
  {
    if s == {} then []
    else
      var x :| x in s;
      var rest := SomeEnumeration(s - {x});
      EnumerationJoin([x], rest, {x}, s - {x});
      assert {x} + (s - {x}) == s;
      [x] + rest
  }

  /** Flattening two runs of keys is flattening each and concatenating. */
  lemma {:induction false} FlattenAppend(catalog: Catalog, a: seq<string>, b: seq<string>)
    requires forall k :: k in a ==> k in catalog
    requires forall k :: k in b ==> k in catalog
    ensures Flatten(catalog, a + b) == Flatten(catalog, a) + Flatten(catalog, b)
  {
    if b == [] {
      assert a + b == a;
    } else {
      var front := b[..|b| - 1];
      assert (a + b)[..|a + b| - 1] == a + front;
      FlattenAppend(catalog, a, front);
    }
  }

  /** An entry is in the flattened catalog exactly when it is in the list of one of the keys. */
  lemma {:induction false} FlattenMembers(catalog: Catalog, order: seq<string>, e: Entry)
    requires forall k :: k in order ==> k in catalog
    ensures e in Flatten(catalog, order) <==> exists k :: k in order && e in catalog[k]
  {
    if order != [] {
      var front := order[..|order| - 1];
      var last := order[|order| - 1];
      FlattenMembers(catalog, front, e);
      if exists k :: k in order && e in catalog[k] {
        var k :| k in order && e in catalog[k];
        if k != last {
          var i :| 0 <= i < |order| && order[i] == k;
          assert front[i] == k;
        }
      }
    }
  }

  /** With no usable product, a notification is returned exactly when some
      list of the catalog, whichever product it belongs to, has an eligible
      entry carrying it. */
  lemma AllListsScanned(catalog: Catalog, order: seq<string>, version: seq<Int32>, n: Notification)
    requires IsEnumeration(order, catalog.Keys)
    ensures n in Filter(Flatten(catalog, order), version) <==>
            exists k, e :: k in catalog && e in catalog[k] && Eligible(e.Bound, version) && e.Note == n
  {
    var flat := Flatten(catalog, order);
    FilterMembers(flat, version, n);
    if n in Filter(flat, version) {
      var i :| 0 <= i < |flat| && Eligible(flat[i].Bound, version) && flat[i].Note == n;
      FlattenMembers(catalog, order, flat[i]);
    }
    if exists k, e :: k in catalog && e in catalog[k] && Eligible(e.Bound, version) && e.Note == n {
      var k, e :| k in catalog && e in catalog[k] && Eligible(e.Bound, version) && e.Note == n;
      FlattenMembers(catalog, order, e);
      var i :| 0 <= i < |flat| && flat[i] == e;
      assert Eligible(flat[i].Bound, version) && flat[i].Note == n;
    }
  }

  /** With a known product, a notification is returned exactly when that
      product's list has an eligible entry carrying it; no other list counts. */
  lemma OneListScanned(catalog: Catalog, product: string, version: seq<Int32>, n: Notification)
    requires product in catalog
    ensures n in Filter(catalog[product], version) <==>
            exists e :: e in catalog[product] && Eligible(e.Bound, version) && e.Note == n
  {
    var list := catalog[product];
    FilterMembers(list, version, n);
    if exists e :: e in list && Eligible(e.Bound, version) && e.Note == n {
      var e :| e in list && Eligible(e.Bound, version) && e.Note == n;
      var i :| 0 <= i < |list| && list[i] == e;
      assert Eligible(list[i].Bound, version) && list[i].Note == n;
    }
  }

  /** The entries a lookup scans: the client's product list when the client
      names a product the catalog has, otherwise every list in `order`. */
  function Selected(catalog: Catalog, product: Option<string>, order: seq<string>): seq<Entry>
    requires forall k :: k in order ==> k in catalog
  {
    if product.Some? && product.value in catalog then catalog[product.value]
    else Flatten(catalog, order)
  }

  /** The cache as a lookup sees it: a rescan empties it first. */
  function CacheAtLookup(rescan: bool, cache: map<string, NotificationInfo>): map<string, NotificationInfo>
  {
    if rescan then map[] else cache
  }

  /** Taking one more key out of the keys left extends the enumeration of those taken. */
  lemma EnumerationStep(order: seq<string>, k: string, all: set<string>, keys: set<string>)
    requires k in keys && keys <= all && IsEnumeration(order, all - keys)
    ensures IsEnumeration(order + [k], all - (keys - {k}))
  {
    EnumerationJoin(order, [k], all - keys, {k});
    assert all - keys + {k} == all - (keys - {k});
  }

  /** Scanning the lists up to and including key `k` is scanning those before
      it and then `k`'s list. */
  lemma ScanStep(catalog: Catalog, order: seq<string>, k: string, version: seq<Int32>)
    requires forall q :: q in order ==> q in catalog
    requires k in catalog
    ensures Scan(Flatten(catalog, order + [k]), version) == Then(Scan(Flatten(catalog, order), version), Scan(catalog[k], version))
  {
    assert (order + [k])[..|order|] == order;
    ScanAppend(Flatten(catalog, order), catalog[k], version);
  }

  /** Once the scan of the lists so far throws, scanning further lists throws the same. */
  lemma ScanErrorKept(catalog: Catalog, order: seq<string>, rest: seq<string>, version: seq<Int32>)
    requires forall q :: q in order ==> q in catalog
    requires forall q :: q in rest ==> q in catalog
    requires Scan(Flatten(catalog, order), version).Err?
    ensures Scan(Flatten(catalog, order + rest), version) == Scan(Flatten(catalog, order), version)
  {
    FlattenAppend(catalog, order, rest);
    ScanAppend(Flatten(catalog, order), Flatten(catalog, rest), version);
  }

  /** The two nested loops of RetrieveInfo over every list of the catalog:
      appends the notifications of the entries that pass, list after list in
      the dictionary's enumeration `order`, and stops at the first check
      that throws. */
  method AppendAll(info: NotificationInfo, catalog: Catalog, version: seq<Int32>) returns (outcome: Outcome, ghost order: seq<string>)
    modifies info
    ensures IsEnumeration(order, catalog.Keys)
    ensures Scan(Flatten(catalog, order), version).Ok? ==>
              outcome == Pass && info.Notifications == old(info.Notifications) + Scan(Flatten(catalog, order), version).value
    ensures Scan(Flatten(catalog, order), version).Err? ==> outcome == Fail(Scan(Flatten(catalog, order), version).error)
  {
    order := [];
    var keys := catalog.Keys;
    while keys != {}
      invariant keys <= catalog.Keys
      invariant IsEnumeration(order, catalog.Keys - keys)
      invariant Scan(Flatten(catalog, order), version).Ok?
      invariant info.Notifications == old(info.Notifications) + Scan(Flatten(catalog, order), version).value
      decreases keys
    {
      var k :| k in keys;
      EnumerationStep(order, k, catalog.Keys, keys);
      ScanStep(catalog, order, k, version);
      outcome := AppendEligible(info, catalog[k], version);
      order := order + [k];
      keys := keys - {k};
      if outcome.Fail? {
        ghost var rest := SomeEnumeration(keys);
        EnumerationJoin(order, rest, catalog.Keys - keys, keys);
        assert catalog.Keys - keys + keys == catalog.Keys;
        ScanErrorKept(catalog, order, rest, version);
        order := order + rest;
        return;
      }
    }
    assert catalog.Keys - keys == catalog.Keys;
    return Pass, order;
  }

  class NotificationInfoLoader {
    /** `Notifications`: the catalog, per product. */
    var catalog: Catalog
    /** `NotificationDict`: computed lookups, keyed by version string. */
    var cache: map<string, NotificationInfo>
    /** `_needToRescan`. */
    var needToRescan: bool

    /** The rescan flag is set: true from the start and never cleared. */
    predicate Valid()
      reads this
    {
      needToRescan
    }

    /** The static constructor: empty collections, the flag set, and a first
        load of the catalog. */
    constructor(disk: seq<Record>)
      ensures Valid()
      ensures cache == map[]
      ensures Load(disk).Ok? ==> catalog == Load(disk).value
      ensures Load(disk).Err? ==> exists i :: 0 <= i < |disk| && disk[i].Product.None? &&
                                               Load(disk[..i]).Ok? && catalog == Load(disk[..i]).value
    {
      catalog := map[];
      cache := map[];
      needToRescan := true;
      new;
      var _ := Reload(disk);
    }

    /** `AddNotification(product, version, n)`: appends `(version, n)` to the
        product's list, creating the list first for a new product. A null
        product is rejected by the dictionary. */
    method AddNotification(product: Option<string>, bound: seq<Int32>, n: Notification) returns (outcome: Outcome)
      modifies this
      ensures product.None? ==> outcome == Fail(ArgumentNullException) && catalog == old(catalog)
      ensures product.Some? ==> outcome == Pass && catalog == Added(old(catalog), product.value, Entry(bound, n))
      ensures cache == old(cache) && needToRescan == old(needToRescan)
      ensures old(Valid()) ==> Valid()
    {
      if product.None? {
        return Fail(ArgumentNullException);
      }
      var list := if product.value in catalog then catalog[product.value] else [];
      catalog := catalog[product.value := list + [Entry(bound, n)]];
      return Pass;
    }

    /** `Reload()`: clears the catalog and the cache, then adds the records
        of the disk one by one; the first record without a product throws
        and ends the load, leaving the catalog of the records before it. */
    method Reload(disk: seq<Record>) returns (outcome: Outcome)
      modifies this
      ensures cache == map[] && needToRescan == old(needToRescan)
      ensures Load(disk).Ok? ==> outcome == Pass && catalog == Load(disk).value
      ensures Load(disk).Err? ==> outcome == Fail(Load(disk).error)
      ensures Load(disk).Err? ==> exists i :: 0 <= i < |disk| && disk[i].Product.None? &&
                                               Load(disk[..i]).Ok? && catalog == Load(disk[..i]).value
      ensures old(Valid()) ==> Valid()
    {
      catalog := map[];
      cache := map[];
      var i := 0;
      while i < |disk|
        invariant 0 <= i <= |disk|
        invariant Load(disk[..i]).Ok? && catalog == Load(disk[..i]).value
        invariant cache == map[] && needToRescan == old(needToRescan)
      {
        var rec := disk[i];
        assert disk[..i + 1][..i] == disk[..i];
        outcome := AddNotification(rec.Product, rec.Bound, rec.Note);
        if outcome.Fail? {
          LoadFails(disk);
          assert disk[i].Product.None?;
          return;
        }
        i := i + 1;
      }
      assert disk[..i] == disk;
      return Pass;
    }

    /** One pass of the `Job` loop: the re-poll timer fires and the flag is set. */
    method Tick()
      modifies this
      ensures needToRescan && Valid()
      ensures catalog == old(catalog) && cache == old(cache)
    {
      needToRescan := true;
    }

    /** `RetrieveInfo(client)`. With the flag set the catalog is reloaded
        first (a failed reload throws out of the lookup). A cached info for the
        client's version is returned as is; otherwise the version is parsed,
        the selected entries are scanned, and a new info is cached under the
        version string alone. `order` is the order in which the dictionary
        enumerated its lists, when all of them were scanned. */
    method RetrieveInfo(client: UserIOData.ClientInfo, disk: seq<Record>) returns (r: Result<NotificationInfo>, ghost order: seq<string>)
      modifies this
      ensures needToRescan == old(needToRescan)
      ensures forall k :: k in order ==> k in catalog
      ensures old(needToRescan) && Load(disk).Err? ==> r == Err(Load(disk).error) && cache == map[]
      ensures old(needToRescan) && Load(disk).Ok? ==> catalog == Load(disk).value
      ensures old(needToRescan) && Load(disk).Err? ==>
                exists i :: 0 <= i < |disk| && disk[i].Product.None? &&
                            Load(disk[..i]).Ok? && catalog == Load(disk[..i]).value
      ensures !old(needToRescan) ==> catalog == old(catalog)
      ensures old(Valid()) ==> Valid() && (r.Ok? ==> fresh(r.value))
      ensures var before := CacheAtLookup(old(needToRescan), old(cache));
              (!old(needToRescan) || Load(disk).Ok?) && client.Version in before ==>
                r == Ok(before[client.Version]) && cache == before
      ensures var before := CacheAtLookup(old(needToRescan), old(cache));
              (!old(needToRescan) || Load(disk).Ok?) && client.Version !in before ==>
                (client.GetVersionInfo().Ok? && (client.Product.None? || client.Product.value !in catalog) ==>
                   IsEnumeration(order, catalog.Keys)) &&
                var result := Lookup(client.GetVersionInfo(), Selected(catalog, client.Product, order));
                (result.Ok? ==> r.Ok? && fresh(r.value) && r.value.Notifications == result.value &&
                                cache == before[client.Version := r.value]) &&
                (result.Err? ==> r == Err(result.error) && cache == before)
    {
      order := [];
      if needToRescan {
        var loaded := Reload(disk);
        if loaded.Fail? {
          return Err(loaded.error), order;
        }
      }
      if client.Version in cache {
        return Ok(cache[client.Version]), order;
      }
      var info := new NotificationInfo();
      var parsed := client.GetVersionInfo();
      if parsed.Err? {
        return Err(parsed.error), order;
      }
      var version := parsed.value;
      if client.Product.Some? && client.Product.value in catalog {
        var outcome := AppendEligible(info, catalog[client.Product.value], version);
        if outcome.Fail? {
          return Err(outcome.error), order;
        }
      } else {
        var outcome;
        outcome, order := AppendAll(info, catalog, version);
        if outcome.Fail? {
          return Err(outcome.error), order;
        }
      }
      cache := cache[client.Version := info];
      return Ok(info), order;
    }
  }
}
