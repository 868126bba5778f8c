# Push notification server: the notification catalog in Dafny

The push notification server answers a client that reports its version (and, in
the newer request format, its product) with the notifications meant for that
version. This project models the in-memory part of that service:

- **Version parsing and hashing.** `ClientInfo.GetVersionInfo` turns a dotted version string into an `int[]`. `GetHashCode` multiplies the first three components together, each times 17, in unchecked 32-bit arithmetic. Both ClientInfo classes are modelled: the version-only one and the product-carrying one.
- **Notification values.** `Notification` carries a message, a type and an id. Its `CompareTo` orders higher types first. `NotificationInfo` is the list of notifications sent back to a client; it is appended to in place.
- **The eligibility rule.** A catalog entry pairs a version bound with a notification. The entry is shown when each of the first three bound components is at least the client's component (module `Eligibility`).
- **The flat catalog** (`Notifications/NotificationInfoLoader.cs`). This is one list of entries plus a cache of computed lookups keyed by version string. `Reload` resets both, `AddNotification` appends, and `RetrieveInfo` answers from the cache or scans the list.
- **The product-aware catalog** (`Services/NotificationInfoLoader.cs`):
  - It keeps one list per product, loaded from a directory tree.
  - A lookup scans the client's product list when the client names a known product, and every list otherwise.
  - Results are cached under the version string alone.
  - The rescan flag starts true and nothing clears it, so every lookup reloads the catalog first.
- **The logger's queue discipline.** `Log`, `LogWarning` and `LogError` decide whether to enqueue an entry and at which level. The logger job drains the queue in FIFO order into one writer per level.

.NET runtime behaviour that the code relies on is modelled explicitly in module `Runtime`:

- `int.Parse`, including surrounding white space, trailing U+0000 characters, sign, `FormatException` and `OverflowException`;
- `String.Split(char)`;
- `Array.ConvertAll`;
- unchecked `int` arithmetic: results wrap modulo 2^32;
- exceptions, written as `Result`/`Outcome` values.

Files on disk are modelled as values passed in:

- the product-aware loader reads a sequence of `Record`s, one per notification file, each with its product folder;
- the flat loader reads a sequence of entries.

A ConcurrentDictionary enumerates its lists in an unspecified order. The all-products lookup therefore returns that order as a ghost value and states its result relative to it.

Three points where the code behaves differently from what a reader might expect; the model follows the code:

- **Eligibility is component-wise.** A bound could be read as "this version and every lower one", a lexicographic comparison of versions. The code instead compares the three components one by one, so bound 7.0.0 does not match client 6.5.0. `Eligibility.EligibleIsNotLexicographic` proves that the two readings differ. `Eligibility.TwoEntryScenario` works through a two-entry catalog (bounds 6.2.1 and 9.9.9, clients 6.2.0 and 6.3.0) under the code's rule.
- **The cache key is the version string alone.** Although the catalog is split by product, the cache of the product-aware loader is keyed by version only, so the product plays no part in a cache hit.
- **Top-folder files are not served to every product.** The class comment at Services/NotificationInfoLoader.cs:13-16 says files in the top folder reach all clients. In the code, such a file either joins the first product folder's list or, with no product folder, reaches `AddNotification` with a null product and throws.

## Model

| member | source | states |
|---|---|---|
| Runtime.Wrap32 | PushNotificationServer/Notifications/NotificationInfo.cs:15-17 | an unchecked Int32 result is congruent to the exact value modulo 2^32, and equals it when it is in range |
| Runtime.WrapNeg | PushNotificationServer/Notifications/NotificationInfo.cs:57 | unchecked negation commutes with wrapping unless the wrapped value is MinInt32 |
| Runtime.Split | PushNotificationServer/Notifications/NotificationInfo.cs:10 | `Split('.')` yields at least one piece and no piece contains the separator |
| Runtime.SplitCount | PushNotificationServer/Notifications/NotificationInfo.cs:10 | Split yields one piece more than the string has separators |
| Runtime.JoinSplit | PushNotificationServer/Notifications/NotificationInfo.cs:10 | joining the pieces of a split with the separator gives back the string |
| Runtime.SplitJoin | PushNotificationServer/Notifications/NotificationInfo.cs:10 | splitting a join of separator-free pieces gives back the pieces |
| Runtime.ParseInt32 | PushNotificationServer/Notifications/NotificationInfo.cs:10 | int.Parse fails only with FormatException or OverflowException, and a piece that is empty once white space and trailing U+0000 characters are removed is a FormatException |
| Runtime.ParseTrailingNulls | PushNotificationServer/Notifications/NotificationInfo.cs:10 | any number of U+0000 characters appended to a piece leave what int.Parse reads unchanged |
| Runtime.ParseAll | PushNotificationServer/Notifications/NotificationInfo.cs:10 | ConvertAll succeeds iff every piece parses, then gives one value per piece in order; failures are Format or Overflow |
| Runtime.ParseAllFirstError | PushNotificationServer/Notifications/NotificationInfo.cs:10 | ConvertAll throws the exception of the first piece that fails to parse |
| Runtime.ParseFormat | PushNotificationServer/Notifications/NotificationInfo.cs:10 | int.Parse reads back every Int32 written in decimal |
| Notifications.ParseVersion | PushNotificationServer/Notifications/NotificationInfo.cs:9-11 | one Int32 per '.'-separated piece, each the piece's int.Parse value; success iff every piece parses; an empty piece makes it fail |
| Notifications.VersionRoundTrip | PushNotificationServer/Notifications/NotificationInfo.cs:9-11 | parsing the dotted decimal text of any non-empty sequence of Int32s gives back that sequence |
| Notifications.VersionComponentCount | PushNotificationServer/Notifications/NotificationInfo.cs:9-11 | a parsed version has one component more than its string has dots |
| Notifications.ClientInfo.GetVersionInfo | PushNotificationServer/Notifications/NotificationInfo.cs:9-11 | the version-only client's components, with the same success and failure conditions as ParseVersion |
| Notifications.UncheckedHashProduct | PushNotificationServer/Notifications/NotificationInfo.cs:15-17 | three unchecked multiplications give the wrapped exact product 17^3 * v0 * v1 * v2 |
| Notifications.VersionHash | PushNotificationServer/Notifications/NotificationInfo.cs:13-19 | IndexOutOfRange below three components, otherwise the wrapped 4913 * v0 * v1 * v2; a zero component gives 0 |
| Notifications.ClientInfo.GetHashCode | PushNotificationServer/Notifications/NotificationInfo.cs:13-19 | fails as the parse fails, throws IndexOutOfRange below three components, otherwise the wrapped 4913 * v0 * v1 * v2, which is 0 when one of the three components is 0 |
| Notifications.NotificationInfo.constructor | PushNotificationServer/Notifications/NotificationInfo.cs:26-28 | a new NotificationInfo has no notifications |
| Notifications.NotificationInfo.AddNotificationFields | PushNotificationServer/Notifications/NotificationInfo.cs:30-32 | appends one notification whose message, type and id are the arguments |
| Notifications.NotificationInfo.AddNotification | PushNotificationServer/Notifications/NotificationInfo.cs:38-40 | the notification becomes the last element, everything before it unchanged |
| Notifications.Notification.CompareTo | PushNotificationServer/Notifications/NotificationInfo.cs:54-58 | null gives 1, another type throws ArgumentException, and a notification gives `other.Type - Type` modulo 2^32, negative iff this Type is higher when the difference fits |
| Notifications.CompareToAntisymmetric | PushNotificationServer/Notifications/NotificationInfo.cs:54-58 | `a.CompareTo(b) == -b.CompareTo(a)` whenever the wrapped difference is not MinInt32 |
| Notifications.CompareToOverflowWitness | PushNotificationServer/Notifications/NotificationInfo.cs:57 | two pairs of types for which the unchecked difference orders notifications wrongly |
| Notifications.Notification.CompareToChecked | PushNotificationServer/Notifications/NotificationInfo.cs:54-58 | the corrected comparison: negative, zero or positive exactly as this Type is higher, equal or lower, for all Int32 types |
| UserIOData.ClientInfo.GetVersionInfo | PushNotificationServer/UserIOData/ClientInfo.cs:14-16 | one Int32 per '.'-separated piece of Version; success iff every piece parses |
| UserIOData.ClientInfo.GetHashCode | PushNotificationServer/UserIOData/ClientInfo.cs:19-25 | fails as the parse fails and throws IndexOutOfRange below three components; otherwise the wrapped 4913 * v0 * v1 * v2, which is 0 when one of the three components is 0 |
| UserIOData.HashIgnoresProduct | PushNotificationServer/UserIOData/ClientInfo.cs:19-25 | the hash depends on Version only, and equals the version-only client's hash |
| Eligibility.CheckEntry | PushNotificationServer/Services/NotificationInfoLoader.cs:126-128 | the nested checks accept exactly when each of the three bound components is >= the client's; they throw IndexOutOfRange only on a bound or version shorter than three |
| Eligibility.EligibleIsNotLexicographic | PushNotificationServer/Notifications/NotificationInfoLoader.cs:77-79 | component-wise eligibility implies lexicographic order but not conversely: bound 7.0.0 is not shown to client 6.5.0 |
| Eligibility.ScanAppend | PushNotificationServer/Notifications/NotificationInfoLoader.cs:76-80 | scanning a concatenation is scanning the parts in order, and the first exception wins |
| Eligibility.ScanIsFilter | PushNotificationServer/Notifications/NotificationInfoLoader.cs:76-80 | a scan that does not throw returns the notifications of the eligible entries, in list order |
| Eligibility.ScanFails | PushNotificationServer/Notifications/NotificationInfoLoader.cs:76-80 | a scan throws iff the check of some entry throws, and then with IndexOutOfRange |
| Eligibility.WellFormedScan | PushNotificationServer/Notifications/NotificationInfoLoader.cs:76-80 | with three-component bounds and version the scan never throws and returns the filtered list |
| Eligibility.FilterMembers | PushNotificationServer/Notifications/NotificationInfoLoader.cs:76-80 | a notification is returned iff some eligible entry carries it |
| Eligibility.FilterIsSubsequence | PushNotificationServer/Services/NotificationInfoLoader.cs:125-137 | the result is a subsequence of the scanned notifications: nothing is reordered or sorted by Type |
| Eligibility.CatalogOrderNotTypeOrder | PushNotificationServer/Notifications/NotificationInfoLoader.cs:76-80 | a lower-Type notification listed first is returned first |
| Eligibility.TwoEntryScenario | PushNotificationServer/Notifications/NotificationInfoLoader.cs:76-80 | with bounds 6.2.1 and 9.9.9, client 6.2.0 gets both notifications in catalog order and client 6.3.0 gets only the second |
| Eligibility.AppendEligible | PushNotificationServer/Notifications/NotificationInfoLoader.cs:76-80 | the loop appends exactly the scan's result to the info, or stops with the scan's exception |
| FlatLoader.NotificationInfoLoader.constructor | PushNotificationServer/Notifications/NotificationInfoLoader.cs:18-20 | the initial load: the list read from disk and an empty cache |
| FlatLoader.NotificationInfoLoader.Reload | PushNotificationServer/Notifications/NotificationInfoLoader.cs:42-46 | the list becomes the entries read from disk and the cache becomes empty |
| FlatLoader.NotificationInfoLoader.AddNotification | PushNotificationServer/Notifications/NotificationInfoLoader.cs:53-55 | the list grows by one, the new entry last and earlier entries unchanged; the cache is untouched |
| FlatLoader.NotificationInfoLoader.RetrieveInfo | PushNotificationServer/Notifications/NotificationInfoLoader.cs:69-84 | a hit returns the cached info and changes nothing; a miss returns a fresh info holding the scan's result, cached under the version with other keys untouched; an exception leaves the cache as it was |
| FlatLoader.NotificationInfoLoader.RetrieveTwice | PushNotificationServer/Notifications/NotificationInfoLoader.cs:69-84 | two lookups of the same version with no reload between return the same info |
| FlatLoader.NotificationInfoLoader.RetrieveAroundAdd | PushNotificationServer/Notifications/NotificationInfoLoader.cs:53-84 | an entry added after a lookup is not seen by later lookups of the same version until a reload |
| ProductLoader.Added | PushNotificationServer/Services/NotificationInfoLoader.cs:91-97 | the product's list gains the entry at its end, a new product starts with the entry alone, other lists are unchanged |
| ProductLoader.NotificationInfoLoader.AddNotification | PushNotificationServer/Services/NotificationInfoLoader.cs:91-97 | a null product throws ArgumentNullException and changes nothing; otherwise the catalog becomes Added(...); the cache and the rescan flag are untouched |
| ProductLoader.LoadFails | PushNotificationServer/Services/NotificationInfoLoader.cs:166-196 | loading throws iff some file has no product folder, and then with ArgumentNullException |
| ProductLoader.LoadKeys | PushNotificationServer/Services/NotificationInfoLoader.cs:166-196 | after a load the catalog has a list for exactly the products of the files |
| ProductLoader.LoadGroups | PushNotificationServer/Services/NotificationInfoLoader.cs:166-196 | after a load each product's list holds that product's entries in file order |
| ProductLoader.NotificationInfoLoader.Reload | PushNotificationServer/Services/NotificationInfoLoader.cs:75-83 | the cache is emptied and the catalog rebuilt from scratch from the files; a file without a product throws, leaving the catalog of the files before the first such file; the rescan flag is kept |
| ProductLoader.NotificationInfoLoader.constructor | PushNotificationServer/Services/NotificationInfoLoader.cs:29-33 | the rescan flag starts true, the cache empty, the catalog loaded from the files, or on a file without a product the catalog of the files before it |
| ProductLoader.NotificationInfoLoader.Tick | PushNotificationServer/Services/NotificationInfoLoader.cs:45-50 | a pass of the job loop sets the rescan flag, so the class invariant holds, and changes nothing else |
| ProductLoader.FlattenAppend | PushNotificationServer/Services/NotificationInfoLoader.cs:132-133 | scanning the lists one after another is scanning their concatenation |
| ProductLoader.FlattenMembers | PushNotificationServer/Services/NotificationInfoLoader.cs:132-133 | an entry is among all the scanned lists iff it is in the list of one of the enumerated products |
| ProductLoader.AllListsScanned | PushNotificationServer/Services/NotificationInfoLoader.cs:131-138 | without a known product a notification is returned iff an eligible entry of any product carries it |
| ProductLoader.OneListScanned | PushNotificationServer/Services/NotificationInfoLoader.cs:124-130 | with a known product a notification is returned iff an eligible entry of that product's list carries it |
| ProductLoader.EnumerationJoin | PushNotificationServer/Services/NotificationInfoLoader.cs:132 | enumerating two disjoint sets of keys one after the other enumerates their union |
| ProductLoader.AppendAll | PushNotificationServer/Services/NotificationInfoLoader.cs:132-137 | the nested loops append the scan of all lists in the dictionary's enumeration order, or stop with its exception |
| ProductLoader.NotificationInfoLoader.RetrieveInfo | PushNotificationServer/Services/NotificationInfoLoader.cs:114-142 | with the flag set the catalog is reloaded and the cache emptied first, and a failed reload throws, leaving the catalog of the files before the failing one; so while the flag stays set every successful lookup returns a fresh info; a hit is returned as is; a miss scans the product's list or all lists and caches a fresh info under the version string alone; the rescan flag is never cleared |
| Logging.Admits | PushNotificationServer/Services/Logger.cs:95-96 | the filter of Log and LogWarning |
| Logging.DefaultAdmits | PushNotificationServer/Services/Logger.cs:26 | under the default threshold 1 an importance is logged iff it is at most 1 |
| Logging.AdmitsMonotone | PushNotificationServer/Services/Logger.cs:95-96 | raising the threshold never filters out a call that passed before |
| Logging.Logger.constructor | PushNotificationServer/Services/Logger.cs:21-27 | an empty queue, one writer per log type, threshold 1 |
| Logging.Logger.Log | PushNotificationServer/Services/Logger.cs:93-100 | a filtered-out call enqueues nothing; otherwise exactly one level-0 entry joins the tail |
| Logging.Logger.LogWarning | PushNotificationServer/Services/Logger.cs:102-109 | the same filter as Log, and the entry is enqueued at level 0, not the Warning level |
| Logging.Logger.LogError | PushNotificationServer/Services/Logger.cs:111-116 | no filter; exactly one level-2 entry joins the tail |
| Logging.MessagesPartition | PushNotificationServer/Services/Logger.cs:93-116 | every queued entry reaches the "" or the "Error" writer and the "Warning" writer gets nothing |
| Logging.Logger.Drain | PushNotificationServer/Services/Logger.cs:141-144 | the queue ends empty and each writer receives the texts of its level in FIFO order |
| Logging.Logger.JobIteration | PushNotificationServer/Services/Logger.cs:135-144 | a requested crash clears the request and throws without draining; otherwise the queue is drained |

## Left out

- File and JSON I/O. Not modelled: the directory walk, `LoadFile`, `WriteFile`, `WriteAllFiles`, `NotificationDir` and `GetRelativePath`. Each loader's disk is a parameter.
  - The product folder of a file arrives already computed. So the walk's reuse of the first sub-folder's name for later sibling folders is not modelled.
  - A file whose JSON has no bound would give a null `int[]`. That case is not modelled: bounds are always sequences.
- `ToString` catalog listings and the console lines printed by `Reload`, `Log` and `LogWarning`, including colours: these are output only.
- Threads, the `Running` loops, `WaitOne`/`Thread.Sleep` and the `Service` start/stop machinery. `Tick` and `JobIteration` are single passes of the job loops. Concurrent collections are treated as sequential maps and queues.
- Logger file handling: `StartFunction`, `StopFunction`, `GetLogFile` and `Flush`. Timestamps are a `stamp` parameter, so an entry's text is the stamp followed by the message.
- `VerbosityThreshhold` is a public field of the model, not a property with a setter.
- Catalog lists and the cache are values (`seq`, `map`), not shared `List` objects. Aliasing between a list handed out and the catalog is not captured. Cached `NotificationInfo` objects are references, as in the code.
- Null version strings are not modelled: `Version` is always a string. In the code, a null version would make the dictionary lookup throw.
- ProductLoader.NotificationInfoLoader.constructor does not model an exception in the static constructor's first load. That would make the type unusable; the model simply keeps the partial catalog.

## Findings

| source | as written | input that shows it | evidently intended | confidence | as-written member | corrected member |
|---|---|---|---|---|---|---|
| PushNotificationServer/Notifications/NotificationInfo.cs:57 | `CompareTo` returns `other.Type - Type` in unchecked Int32 arithmetic | this Type = 2147483647, other Type = -2: the difference -2147483649 wraps to 2147483647 (positive), so the higher Type sorts after the lower one; types 0 and -2147483648 each compare below the other | negative, zero or positive as this Type is higher, equal or lower | not executed | Notifications.CompareToOverflowWitness | Notifications.Notification.CompareToChecked |
