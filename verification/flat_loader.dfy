/** Notifications.NotificationInfoLoader: the older catalog, one flat list of
    entries for every client, with lookups cached under the client's version
    string until the next reload. */
module FlatLoader {
  import opened Runtime
  import opened Notifications
  import opened Eligibility

  class NotificationInfoLoader {
    /** `_notifications`: the catalog in load order. */
    var notifications: seq<Entry>
    /** `_notificationDict`: computed lookups, keyed by version string. */
    var cache: map<string, NotificationInfo>

    /** The static constructor: a first load of the catalog. */
    constructor(disk: seq<Entry>)
      ensures notifications == disk && cache == map[]
    {
      notifications := disk;
      cache := map[];
    }

    /** `Reload()`: a fresh list holding the entries read from disk, in file
        order, and a fresh, empty cache. */
    method Reload(disk: seq<Entry>)
      modifies this
      ensures notifications == disk && cache == map[]
    {
      notifications := disk;
      cache := map[];
    }

    /** `AddNotification(version, n)`: `(version, n)` becomes the last entry.
        The cache is left as it is. */
    method AddNotification(bound: seq<Int32>, n: Notification)
      modifies this
      ensures notifications == old(notifications) + [Entry(bound, n)]
      ensures |notifications| == |old(notifications)| + 1
      ensures notifications[..|old(notifications)|] == old(notifications)
      ensures cache == old(cache)
    {
      notifications := notifications + [Entry(bound, n)];
    }

    /** `RetrieveInfo(client)`: the cached info for the client's version if
        there is one, untouched and without a scan; otherwise the version is
        parsed, the list is scanned in order, and the new info is cached under
        the version string, other keys untouched. An exception leaves the
        cache as it was. */
    method RetrieveInfo(client: ClientInfo) returns (r: Result<NotificationInfo>)
      modifies this
      ensures notifications == old(notifications)
      ensures client.Version in old(cache) ==> r == Ok(old(cache)[client.Version]) && cache == old(cache)
      ensures client.Version !in old(cache) ==>
                var result := Lookup(client.GetVersionInfo(), notifications);
                (result.Ok? ==> r.Ok? && fresh(r.value) && r.value.Notifications == result.value &&
                                cache == old(cache)[client.Version := r.value]) &&
                (result.Err? ==> r == Err(result.error) && cache == old(cache))
    {
      if client.Version in cache {
        return Ok(cache[client.Version]);
      }
      var info := new NotificationInfo();
      var parsed := client.GetVersionInfo();
      if parsed.Err? {
        return Err(parsed.error);
      }
      var outcome := AppendEligible(info, notifications, parsed.value);
      if outcome.Fail? {
        return Err(outcome.error);
      }
      cache := cache[client.Version := info];
      return Ok(info);
    }

    /** Two lookups for the same version with no reload between them return
        the same info. */
    method RetrieveTwice(client: ClientInfo) returns (first: Result<NotificationInfo>, second: Result<NotificationInfo>)
      modifies this
      ensures first.Ok? ==> second == first
    {
      first := RetrieveInfo(client);
      second := RetrieveInfo(client);
    }

    /** AddNotification does not touch the cache: a version looked up before
        the new entry was added keeps being served the info computed without
        it, even when the new entry is eligible for it. */
    method RetrieveAroundAdd(client: ClientInfo, bound: seq<Int32>, n: Notification)
      returns (first: Result<NotificationInfo>, second: Result<NotificationInfo>)
      modifies this
      ensures first.Ok? ==> second == first
      ensures first.Ok? ==> notifications == old(notifications) + [Entry(bound, n)]
    {
      first := RetrieveInfo(client);
      AddNotification(bound, n);
      second := RetrieveInfo(client);
    }
  }
}
