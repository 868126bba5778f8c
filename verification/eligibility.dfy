/** The filter both notification loaders apply to their catalog entries: an
    entry is shown to a client when each of the first three components of its
    version bound is at least the client's. The check is component-wise, not
    a lexicographic comparison of versions. */
module Eligibility {
  import opened Runtime
  import opened Notifications

  /** One catalog entry, `Tuple<int[], Notification>`: the version bound at and
      below which the notification is shown, and the notification. */
  datatype Entry = Entry(Bound: seq<Int32>, Note: Notification)

  /** The rule the loaders apply, for a bound and a version of three components or more. */
  predicate Eligible(bound: seq<Int32>, version: seq<Int32>)
  {
    |bound| >= 3 && |version| >= 3 &&
    bound[0] >= version[0] && bound[1] >= version[1] && bound[2] >= version[2]
  }

  /** The three nested `if`s of RetrieveInfo for one entry. Component 1 is read
      only when component 0 passed, component 2 only when 1 passed; reading a
      component past the end of either array throws. */
  function CheckEntry(bound: seq<Int32>, version: seq<Int32>): (r: Result<bool>)
    ensures r.Err? ==> r.error == IndexOutOfRangeException && (|bound| < 3 || |version| < 3)
    ensures r == Ok(true) <==> Eligible(bound, version)
    ensures |bound| >= 3 && |version| >= 3 ==> r.Ok?
    ensures |bound| == 0 || |version| == 0 ==> r.Err?
  {
    if |bound| < 1 || |version| < 1 then Err(IndexOutOfRangeException)
    else if !(bound[0] >= version[0]) then Ok(false)
    else if |bound| < 2 || |version| < 2 then Err(IndexOutOfRangeException)
    else if !(bound[1] >= version[1]) then Ok(false)
    else if |bound| < 3 || |version| < 3 then Err(IndexOutOfRangeException)
    else Ok(bound[2] >= version[2])
  }

  /** The loop of RetrieveInfo over a list of entries: the notifications of the
      entries that pass, in list order, or the exception of the first entry
      whose check throws. */
  function Scan(entries: seq<Entry>, version: seq<Int32>): Result<seq<Notification>>
  {
    if entries == [] then Ok([])
    else
      match CheckEntry(entries[0].Bound, version)
      case Err(e) => Err(e)
      case Ok(shown) =>
        match Scan(entries[1..], version)
        case Err(e) => Err(e)
        case Ok(rest) => Ok(if shown then [entries[0].Note] + rest else rest)
  }

  /** Reference definition of what a lookup returns: the notifications of the
      eligible entries, in list order. */
  function Filter(entries: seq<Entry>, version: seq<Int32>): seq<Notification>
  {
    if entries == [] then []
    else (if Eligible(entries[0].Bound, version) then [entries[0].Note] else []) + Filter(entries[1..], version)
  }

  /** `info.Notifications` after a lookup that does not throw: parse, then scan. */
  function Lookup(parsed: Result<seq<Int32>>, entries: seq<Entry>): Result<seq<Notification>>
  {
    match parsed
    case Err(e) => Err(e)
    case Ok(version) => Scan(entries, version)
  }

  /** The outcome of scanning two lists one after the other. */
  function Then(first: Result<seq<Notification>>, second: Result<seq<Notification>>): Result<seq<Notification>>
  {
    if first.Err? then first else if second.Err? then second else Ok(first.value + second.value)
  }

  /** The contribution of one entry to a scan. */
  function Head(e: Entry, version: seq<Int32>): Result<seq<Notification>>
  {
    match CheckEntry(e.Bound, version)
    case Err(err) => Err(err)
    case Ok(shown) => Ok(if shown then [e.Note] else [])
  }

  lemma ScanCons(entries: seq<Entry>, version: seq<Int32>)
    requires entries != []
    ensures Scan(entries, version) == Then(Head(entries[0], version), Scan(entries[1..], version))
  {
    var rest := Scan(entries[1..], version);
    if rest.Ok? {
      assert [] + rest.value == rest.value;
    }
  }

  lemma ThenAssociative(x: Result<seq<Notification>>, y: Result<seq<Notification>>, z: Result<seq<Notification>>)
    ensures Then(x, Then(y, z)) == Then(Then(x, y), z)
  {
    if x.Ok? && y.Ok? && z.Ok? {
      assert x.value + (y.value + z.value) == (x.value + y.value) + z.value;
    }
  }

  /** Scanning a concatenation is scanning its parts in order. */
  lemma {:induction false} ScanAppend(a: seq<Entry>, b: seq<Entry>, version: seq<Int32>)
    ensures Scan(a + b, version) == Then(Scan(a, version), Scan(b, version))
  {
    if a == [] {
      assert a + b == b;
      if Scan(b, version).Ok? {
        assert [] + Scan(b, version).value == Scan(b, version).value;
      }
    } else {
      ScanAppend(a[1..], b, version);
      assert (a + b)[1..] == a[1..] + b;
      assert (a + b)[0] == a[0];
      ScanCons(a + b, version);
      ScanCons(a, version);
      ThenAssociative(Head(a[0], version), Scan(a[1..], version), Scan(b, version));
    }
  }

  /** A scan that does not throw returns exactly the reference result. */
  lemma {:induction false} ScanIsFilter(entries: seq<Entry>, version: seq<Int32>)
    requires Scan(entries, version).Ok?
    ensures Scan(entries, version).value == Filter(entries, version)
  {
    if entries != [] {
      ScanIsFilter(entries[1..], version);
    }
  }

  /** A scan throws exactly when the check of some entry throws, and then with
      IndexOutOfRangeException. */
  lemma {:induction false} ScanFails(entries: seq<Entry>, version: seq<Int32>)
    ensures Scan(entries, version).Err? <==>
            exists i :: 0 <= i < |entries| && CheckEntry(entries[i].Bound, version).Err?
    ensures Scan(entries, version).Err? ==> Scan(entries, version).error == IndexOutOfRangeException
  {
    if entries != [] {
      ScanFails(entries[1..], version);
      if exists i :: 0 <= i < |entries| && CheckEntry(entries[i].Bound, version).Err? {
        var i :| 0 <= i < |entries| && CheckEntry(entries[i].Bound, version).Err?;
        if i > 0 {
          assert entries[1..][i - 1] == entries[i];
        }
      } else {
        forall i | 0 <= i < |entries| - 1 ensures CheckEntry(entries[1..][i].Bound, version).Ok? {
          assert entries[1..][i] == entries[i + 1];
        }
      }
    }
  }

  /** When every bound and the version have three components, a scan never throws. */
  lemma WellFormedScan(entries: seq<Entry>, version: seq<Int32>)
    requires |version| >= 3
    requires forall i :: 0 <= i < |entries| ==> |entries[i].Bound| >= 3
    ensures Scan(entries, version) == Ok(Filter(entries, version))
  {
    ScanFails(entries, version);
    ScanIsFilter(entries, version);
  }

  /** A notification is in the result exactly when some eligible entry carries it. */
  lemma {:induction false} FilterMembers(entries: seq<Entry>, version: seq<Int32>, n: Notification)
    ensures n in Filter(entries, version) <==>
            exists i :: 0 <= i < |entries| && Eligible(entries[i].Bound, version) && entries[i].Note == n
  {
    if entries != [] {
      FilterMembers(entries[1..], version, n);
      if exists i :: 0 <= i < |entries| && Eligible(entries[i].Bound, version) && entries[i].Note == n {
        var i :| 0 <= i < |entries| && Eligible(entries[i].Bound, version) && entries[i].Note == n;
        if i > 0 {
          assert entries[1..][i - 1] == entries[i];
        }
      }
      if n in Filter(entries[1..], version) {
        var i :| 0 <= i < |entries| - 1 && Eligible(entries[1..][i].Bound, version) && entries[1..][i].Note == n;
        assert entries[i + 1] == entries[1..][i];
      }
    }
  }

  /** `a` is `b` with some elements left out, the rest kept in order. */
  predicate IsSubsequence(a: seq<Notification>, b: seq<Notification>)
  {
    if a == [] then true
    else if b == [] then false
    else (a[0] == b[0] && IsSubsequence(a[1..], b[1..])) || IsSubsequence(a, b[1..])
  }

  /** The notifications of a list of entries, in order. */
  function Notes(entries: seq<Entry>): (r: seq<Notification>)
    ensures |r| == |entries|
    ensures forall i :: 0 <= i < |entries| ==> r[i] == entries[i].Note
  {
    if entries == [] then [] else [entries[0].Note] + Notes(entries[1..])
  }

  /** The result is a subsequence of the catalog list: nothing is reordered,
      in particular nothing is sorted by Type. */
  lemma {:induction false} FilterIsSubsequence(entries: seq<Entry>, version: seq<Int32>)
    ensures IsSubsequence(Filter(entries, version), Notes(entries))
  {
    if entries != [] {
      FilterIsSubsequence(entries[1..], version);
      var rest := Filter(entries[1..], version);
      var notes := Notes(entries);
      assert notes[1..] == Notes(entries[1..]);
      if Eligible(entries[0].Bound, version) {
        assert Filter(entries, version) == [entries[0].Note] + rest;
        assert ([entries[0].Note] + rest)[1..] == rest;
      } else {
        assert Filter(entries, version) == rest;
        SubsequenceDrop(rest, notes);
      }
    }
  }

  lemma {:induction false} SubsequenceDrop(a: seq<Notification>, b: seq<Notification>)
    requires b != [] && IsSubsequence(a, b[1..])
    ensures IsSubsequence(a, b)
  {
  }

  /** Lexicographic order of the first three components: the reading of a
      bound as "this version and every lower one". */
  predicate LexLeq(v: seq<Int32>, bound: seq<Int32>)
    requires |v| >= 3 && |bound| >= 3
  {
    v[0] < bound[0] ||
    (v[0] == bound[0] && (v[1] < bound[1] || (v[1] == bound[1] && v[2] <= bound[2])))
  }

  /** Component-wise eligibility implies lexicographic order, but not the
      other way round: bound 7.0.0 is lexicographically above client 6.5.0,
      yet the entry is not shown to that client. */
  lemma EligibleIsNotLexicographic()
    ensures forall b: seq<Int32>, v: seq<Int32> :: Eligible(b, v) ==> LexLeq(v, b)
    ensures LexLeq([6, 5, 0], [7, 0, 0]) && !Eligible([7, 0, 0], [6, 5, 0])
  {
  }

  /** A two-entry catalog under the component-wise rule: with entries (6.2.1, type 2, "upgrade now") and (9.9.9, type 1, "notice"),
      client 6.2.0 gets both in catalog order and client 6.3.0 only "notice". */
  lemma TwoEntryScenario()
    ensures var upgrade, notice := Notification("upgrade now", 2, 1), Notification("notice", 1, 2);
            var entries := [Entry([6, 2, 1], upgrade), Entry([9, 9, 9], notice)];
            Scan(entries, [6, 2, 0]) == Ok([upgrade, notice]) &&
            Scan(entries, [6, 3, 0]) == Ok([notice])
  {
    var upgrade, notice := Notification("upgrade now", 2, 1), Notification("notice", 1, 2);
    var entries := [Entry([6, 2, 1], upgrade), Entry([9, 9, 9], notice)];
    assert entries[1..] == [Entry([9, 9, 9], notice)];
    assert entries[1..][1..] == [];
    assert [notice] + [] == [notice];
    assert Scan(entries[1..], [6, 2, 0]) == Ok([notice]);
    assert Scan(entries[1..], [6, 3, 0]) == Ok([notice]);
    assert CheckEntry([6, 2, 1], [6, 2, 0]) == Ok(true);
    assert CheckEntry([6, 2, 1], [6, 3, 0]) == Ok(false);
    assert [upgrade] + [notice] == [upgrade, notice];
    assert Scan(entries, [6, 2, 0]) == Ok([upgrade, notice]);
    assert Scan(entries, [6, 3, 0]) == Ok([notice]);
  }

  /** Results come out in catalog order even when that puts a lower Type first. */
  lemma CatalogOrderNotTypeOrder()
    ensures var low, high := Notification("low", 1, 1), Notification("high", 2, 2);
            Scan([Entry([1, 0, 0], low), Entry([1, 0, 0], high)], [1, 0, 0]) == Ok([low, high])
  {
    var low, high := Notification("low", 1, 1), Notification("high", 2, 2);
    var entries := [Entry([1, 0, 0], low), Entry([1, 0, 0], high)];
    assert entries[1..] == [Entry([1, 0, 0], high)];
    assert entries[1..][1..] == [];
    assert [high] + [] == [high];
    assert Scan(entries[1..], [1, 0, 0]) == Ok([high]);
    assert [low] + [high] == [low, high];
    assert Scan(entries, [1, 0, 0]) == Ok([low, high]);
  }

  /** The body of the loop in RetrieveInfo: appends to `info` the notification
      of every entry that passes the check, in order; stops at the first check
      that throws. */
  method AppendEligible(info: NotificationInfo, entries: seq<Entry>, version: seq<Int32>) returns (outcome: Outcome)
    modifies info
    ensures Scan(entries, version).Ok? ==>
              outcome == Pass && info.Notifications == old(info.Notifications) + Scan(entries, version).value
    ensures Scan(entries, version).Err? ==> outcome == Fail(Scan(entries, version).error)
  {
    var i := 0;
    while i < |entries|
      invariant 0 <= i <= |entries|
      invariant Scan(entries[..i], version).Ok?
      invariant info.Notifications == old(info.Notifications) + Scan(entries[..i], version).value
    {
      var entry := entries[i];
      var check := CheckEntry(entry.Bound, version);
      assert entries[..i + 1] == entries[..i] + [entry];
      ScanAppend(entries[..i], [entry], version);
      if check.Err? {
        assert entries == entries[..i + 1] + entries[i + 1..];
        ScanAppend(entries[..i + 1], entries[i + 1..], version);
        return Fail(check.error);
      }
      if check.value {
        info.AddNotification(entry.Note);
      }
      i := i + 1;
    }
    assert entries[..i] == entries;
    return Pass;
  }
}
