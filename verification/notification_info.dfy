/** The value types of the notification service: a notification, the list of
    notifications sent back to one client, and the version-only client record
    with its version parsing and hash. */
module Notifications {
  import opened Runtime

  /** NotificationInfo.Notification. Its fields are set once by the constructor
      (message, type, id) and never changed, so it is a value. */
  datatype Notification = Notification(Message: string, Type: Int32, Id: Int32)
  {
    /** `CompareTo(object)`: a null argument sorts this notification after it,
        another notification compares by `other.Type - Type` in unchecked Int32
        arithmetic (so a higher Type sorts first), anything else throws. */
    function CompareTo(obj: Argument): (r: Result<Int32>)
      ensures obj.Null? ==> r == Ok(1)
      ensures obj.Other? ==> r == Err(ArgumentException)
      ensures obj.Note? ==> r.Ok? && (r.value - (obj.note.Type - Type)) % Two32 == 0
      ensures obj.Note? && MinInt32 <= obj.note.Type - Type <= MaxInt32 ==>
                (r.value < 0 <==> Type > obj.note.Type) && (r.value == 0 <==> Type == obj.note.Type)
    {
      match obj
      case Null => Ok(1)
      case Note(other) => Ok(Wrap32(other.Type - Type))
      case Other => Err(ArgumentException)
    }

    /** The comparison CompareTo evidently intends: the sign of `other.Type - Type`
        computed without overflow. */
    function CompareToChecked(obj: Argument): (r: Result<Int32>)
      ensures obj.Null? ==> r == Ok(1)
      ensures obj.Other? ==> r == Err(ArgumentException)
      ensures obj.Note? ==> r.Ok?
      ensures obj.Note? ==> (r.value < 0 <==> Type > obj.note.Type)
      ensures obj.Note? ==> (r.value == 0 <==> Type == obj.note.Type)
      ensures obj.Note? ==> (r.value > 0 <==> Type < obj.note.Type)
    {
      match obj
      case Null => Ok(1)
      case Note(other) => Ok(if other.Type > Type then 1 else if other.Type < Type then -1 else 0)
      case Other => Err(ArgumentException)
    }
  }

  /** What CompareTo(object) can be handed: null, a Notification, or any other object. */
  datatype Argument = Null | Note(note: Notification) | Other

  /** CompareTo is antisymmetric, `a.CompareTo(b) == -b.CompareTo(a)`, except when
      the wrapped difference of the types is MinInt32. */
  lemma CompareToAntisymmetric(a: Notification, b: Notification)
    requires Wrap32(b.Type - a.Type) != MinInt32
    ensures a.CompareTo(Note(b)).Ok? && b.CompareTo(Note(a)).Ok?
    ensures a.CompareTo(Note(b)).value == -b.CompareTo(Note(a)).value
  {
    WrapNeg(b.Type - a.Type);
    assert -(b.Type - a.Type) == a.Type - b.Type;
  }

  /** Where the subtraction overflows, CompareTo orders notifications wrongly:
      a notification of Type MaxInt32 sorts AFTER one of Type -2, and two
      notifications whose types are 0 and MinInt32 each claim to sort first. */
  lemma CompareToOverflowWitness()
    ensures var a, b := Notification("a", MaxInt32, 0), Notification("b", -2, 1);
            a.Type > b.Type && a.CompareTo(Note(b)).value > 0
    ensures var c, d := Notification("c", 0, 2), Notification("d", MinInt32, 3);
            c.CompareTo(Note(d)).value < 0 && d.CompareTo(Note(c)).value < 0
  {
    var a, b := Notification("a", MaxInt32, 0), Notification("b", -2, 1);
    WrapCongruent(b.Type - a.Type, MaxInt32, -1);
    var c, d := Notification("c", 0, 2), Notification("d", MinInt32, 3);
    WrapCongruent(c.Type - d.Type, MinInt32, 1);
  }

  /** NotificationInfo: the list of notifications returned to a client. The
      list is appended to in place while a lookup builds it. */
  class NotificationInfo {
    var Notifications: seq<Notification>

    constructor()
      ensures Notifications == []
    {
      Notifications := [];
    }

    /** `AddNotification(Notification n)`: `n` becomes the last element. */
    method AddNotification(n: Notification)
      modifies this
      ensures Notifications == old(Notifications) + [n]
    {
      Notifications := Notifications + [n];
    }

    /** `AddNotification(string message, int type, int id)`: appends a new
        Notification built from the three arguments. */
    method AddNotificationFields(message: string, typ: Int32, id: Int32)
      modifies this
      ensures Notifications == old(Notifications) + [Notification(message, typ, id)]
      ensures var n := Notifications[|Notifications| - 1];
              n.Message == message && n.Type == typ && n.Id == id
    {
      Notifications := Notifications + [Notification(message, typ, id)];
    }
  }

  /** `Array.ConvertAll(version.Split('.'), int.Parse)`: one Int32 per
      '.'-separated piece; a piece that is not an Int32 makes the whole parse fail. */
  function ParseVersion(version: string): (r: Result<seq<Int32>>)
    ensures r.Ok? ==> forall i :: 0 <= i < |Split(version, '.')| ==> ParseInt32(Split(version, '.')[i]).Ok?
    ensures (forall i :: 0 <= i < |Split(version, '.')| ==> ParseInt32(Split(version, '.')[i]).Ok?) ==> r.Ok?
    ensures r.Ok? ==> |r.value| == |Split(version, '.')|
    ensures r.Ok? ==> forall i :: 0 <= i < |r.value| ==> ParseInt32(Split(version, '.')[i]) == Ok(r.value[i])
    ensures r.Err? ==> r.error == FormatException || r.error == OverflowException
    ensures (exists i :: 0 <= i < |Split(version, '.')| && Split(version, '.')[i] == []) ==> r.Err?
  {
    assert ParseInt32([]) == Err(FormatException);
    ParseAll(Split(version, '.'))
  }

  /** Each component in decimal, in order. */
  function FormatAll(components: seq<Int32>): (r: seq<string>)
    ensures |r| == |components|
    ensures forall i :: 0 <= i < |r| ==> r[i] == FormatInt32(components[i])
  {
    if components == [] then []
    else
      var rest := FormatAll(components[1..]);
      assert forall i :: 0 < i <= |rest| ==> components[i] == components[1..][i - 1];
      [FormatInt32(components[0])] + rest
  }

  /** The text of a version: its components in decimal joined by '.'. */
  function VersionString(components: seq<Int32>): string
    requires |components| >= 1
  {
    Join(FormatAll(components), '.')
  }

  /** Parsing the text of a version gives back its components. */
  lemma VersionRoundTrip(components: seq<Int32>)
    requires |components| >= 1
    ensures ParseVersion(VersionString(components)) == Ok(components)
  {
    var pieces := FormatAll(components);
    forall i | 0 <= i < |pieces| ensures '.' !in pieces[i] && ParseInt32(pieces[i]) == Ok(components[i]) {
      FormatHasNoDot(components[i]);
      ParseFormat(components[i]);
    }
    SplitJoin(pieces, '.');
    var r := ParseAll(pieces);
    assert r.Ok?;
    assert r.value == components;
  }

  /** A version has one component more than it has '.' separators. */
  lemma VersionComponentCount(version: string)
    requires ParseVersion(version).Ok?
    ensures |ParseVersion(version).value| == Count(version, '.') + 1
  {
    SplitCount(version, '.');
  }

  lemma Product17(a: int, b: int, c: int)
    ensures (a * 17) * (b * 17) * (c * 17) == 4913 * (a * b * c)
  {
  }

  /** The three unchecked multiplications of GetHashCode equal the wrapped
      mathematical product 17^3 * v0 * v1 * v2. */
  lemma UncheckedHashProduct(a: int, b: int, c: int)
    ensures Wrap32(Wrap32(Wrap32(a * 17) * Wrap32(b * 17)) * Wrap32(c * 17)) == Wrap32(4913 * (a * b * c))
  {
    var x, y, z := a * 17, b * 17, c * 17;
    WrapMulLeft(x, Wrap32(y));
    WrapMulRight(x, y);
    var xy := x * y;
    assert Wrap32(Wrap32(x) * Wrap32(y)) == Wrap32(xy);
    WrapMulLeft(xy, Wrap32(z));
    WrapMulRight(xy, z);
    assert Wrap32(Wrap32(xy) * Wrap32(z)) == Wrap32(xy * z);
    Product17(a, b, c);
  }

  /** `GetHashCode` on parsed version components: index errors below three
      components, otherwise `(v0 * 17) * (v1 * 17) * (v2 * 17)` in unchecked Int32. */
  function VersionHash(v: seq<Int32>): (r: Result<Int32>)
    ensures r.Ok? <==> |v| >= 3
    ensures r.Err? ==> r.error == IndexOutOfRangeException
    ensures r.Ok? ==> r.value == Wrap32(4913 * (v[0] as int * v[1] as int * v[2] as int))
    ensures r.Ok? && (v[0] == 0 || v[1] == 0 || v[2] == 0) ==> r.value == 0
  {
    if |v| < 3 then Err(IndexOutOfRangeException)
    else
      var v0: int, v1: int, v2: int := v[0], v[1], v[2];
      var hash := Wrap32(v0 * 17);
      var hash' := Wrap32(hash as int * Wrap32(v1 * 17));
      var hash'' := Wrap32(hash' as int * Wrap32(v2 * 17));
      UncheckedHashProduct(v0, v1, v2);
      Ok(hash'')
  }

  /** Notifications.ClientInfo: the request of a client that sends only its version. */
  datatype ClientInfo = ClientInfo(Version: string)
  {
    /** `GetVersionInfo()`: the '.'-separated components of Version as Int32s. */
    function GetVersionInfo(): (r: Result<seq<Int32>>)
      ensures r.Ok? ==> forall i :: 0 <= i < |Split(Version, '.')| ==> ParseInt32(Split(Version, '.')[i]).Ok?
      ensures (forall i :: 0 <= i < |Split(Version, '.')| ==> ParseInt32(Split(Version, '.')[i]).Ok?) ==> r.Ok?
      ensures r.Ok? ==> |r.value| == |Split(Version, '.')|
      ensures r.Ok? ==> forall i :: 0 <= i < |r.value| ==> ParseInt32(Split(Version, '.')[i]) == Ok(r.value[i])
      ensures r.Err? ==> r.error == FormatException || r.error == OverflowException
    {
      ParseVersion(Version)
    }

    /** `GetHashCode()`: fails as GetVersionInfo fails, throws below three
        components, and otherwise is the wrapped product 17^3 * v0 * v1 * v2. */
    function GetHashCode(): (r: Result<Int32>)
      ensures r.Ok? <==> GetVersionInfo().Ok? && |GetVersionInfo().value| >= 3
      ensures GetVersionInfo().Err? ==> r == Err(GetVersionInfo().error)
      ensures GetVersionInfo().Ok? && |GetVersionInfo().value| < 3 ==> r == Err(IndexOutOfRangeException)
      ensures r.Ok? ==> var v := GetVersionInfo().value; r.value == Wrap32(4913 * (v[0] as int * v[1] as int * v[2] as int))
      ensures r.Ok? ==> var v := GetVersionInfo().value; (v[0] == 0 || v[1] == 0 || v[2] == 0) ==> r.value == 0
    {
      match GetVersionInfo()
      case Err(e) => Err(e)
      case Ok(v) => VersionHash(v)
    }
  }
}
