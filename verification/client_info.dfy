/** UserIOData.ClientInfo: the request of a client that sends its version and,
    optionally, the product it belongs to. */
module UserIOData {
  import opened Runtime
  import Notifications

  /** `Product == None` stands for a null product. */
  datatype ClientInfo = ClientInfo(Version: string, Product: Option<string>)
  {
    /** `GetVersionInfo()`: the '.'-separated components of Version as Int32s;
        a piece int.Parse rejects makes the call throw. */
    function GetVersionInfo(): (r: Result<seq<Int32>>)
      ensures r.Ok? ==> forall i :: 0 <= i < |Split(Version, '.')| ==> ParseInt32(Split(Version, '.')[i]).Ok?
      ensures (forall i :: 0 <= i < |Split(Version, '.')| ==> ParseInt32(Split(Version, '.')[i]).Ok?) ==> r.Ok?
      ensures r.Ok? ==> |r.value| == |Split(Version, '.')|
      ensures r.Ok? ==> forall i :: 0 <= i < |r.value| ==> ParseInt32(Split(Version, '.')[i]) == Ok(r.value[i])
      ensures r.Err? ==> r.error == FormatException || r.error == OverflowException
    {
      Notifications.ParseVersion(Version)
    }

    /** `GetHashCode()`: computed from Version alone; throws below three
        components, otherwise the wrapped product 17^3 * v0 * v1 * v2. */
    function GetHashCode(): (r: Result<Int32>)
      ensures r.Ok? <==> GetVersionInfo().Ok? && |GetVersionInfo().value| >= 3
      ensures GetVersionInfo().Err? ==> r == Err(GetVersionInfo().error)
      ensures GetVersionInfo().Ok? && |GetVersionInfo().value| < 3 ==> r == Err(IndexOutOfRangeException)
      ensures r.Ok? ==> var v := GetVersionInfo().value; r.value == Wrap32(4913 * (v[0] as int * v[1] as int * v[2] as int))
      ensures r.Ok? ==> var v := GetVersionInfo().value; (v[0] == 0 || v[1] == 0 || v[2] == 0) ==> r.value == 0
    {
      match GetVersionInfo()
      case Err(e) => Err(e)
      case Ok(v) => Notifications.VersionHash(v)
    }
  }

  /** The product plays no part in the hash: two clients with the same
      version hash alike, and alike to the version-only client. */
  lemma HashIgnoresProduct(a: ClientInfo, b: ClientInfo)
    requires a.Version == b.Version
    ensures a.GetHashCode() == b.GetHashCode()
    ensures a.GetHashCode() == Notifications.ClientInfo(a.Version).GetHashCode()
  {
  }
}
