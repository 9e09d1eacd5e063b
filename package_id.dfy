/** `PackageId`: a read-only value wrapping the 32-bit identifier of an
    asset package (Walgelijk.AssetManager/PackageId.cs). */
module PackageIds {
  import Common
  import opened Numbers

  /** The three helpers of `IdUtil` the identifier relies on. Their code is
      not part of this model, so they are given, not defined: `Hash` turns a
      name into an identifier, `Convert` writes one as text and `TryConvert`
      reads such text back (`None` where it returns false). */
  datatype IdUtil = IdUtil(
    Hash: string -> Int32,
    Convert: Int32 -> string,
    TryConvert: string -> Common.Option<Int32>)

  datatype PackageId = PackageId(External: Int32)

  /** `PackageId.None`, the default value of the struct. */
  const None: PackageId := PackageId(0)

  /** `new PackageId(int)`. */
  function FromNumber(numerical: Int32): (p: PackageId)
    ensures p.External == numerical
    ensures p == None <==> numerical == 0
  {
    PackageId(numerical)
  }

  /** `new PackageId(string)` and `new PackageId(ReadOnlySpan<char>)`. */
  function FromName(util: IdUtil, name: string): (p: PackageId)
    ensures p.External == util.Hash(name)
  {
    PackageId(util.Hash(name))
  }

  /** `TryParse`: the success flag and the out value. */
  function TryParse(util: IdUtil, id: string): (r: (bool, PackageId))
    ensures r.0 <==> util.TryConvert(id).Some?
    ensures r.0 ==> r.1.External == util.TryConvert(id).value
    ensures !r.0 ==> r.1 == None && r.1.External == 0
  {
    match util.TryConvert(id)
    case Some(i) => (true, FromNumber(i))
    case None() => (false, None)
  }

  /** `Parse`: throws (here `Failure`) exactly where `TryParse` fails. */
  function Parse(util: IdUtil, id: string): (r: Common.Result<PackageId, string>)
    ensures r.Success? <==> TryParse(util, id).0
    ensures r.Success? ==> r.value == TryParse(util, id).1
  {
    var (ok, asset) := TryParse(util, id);
    if ok then Common.Success(asset) else Common.Failure(id + " is not a valid ID")
  }

  /** `ToString`. */
  function ToString(util: IdUtil, p: PackageId): string
  {
    util.Convert(p.External)
  }

  /** `Equals(PackageId)`: value equality of the wrapped integers. */
  function Equals(p: PackageId, other: PackageId): (r: bool)
    ensures r <==> p.External == other.External
    ensures r <==> p == other
  {
    p.External == other.External
  }

  /** `operator ==`. */
  function Eq(left: PackageId, right: PackageId): (r: bool)
    ensures r <==> Equals(left, right)
  {
    Equals(left, right)
  }

  /** `operator !=`. */
  function Neq(left: PackageId, right: PackageId): (r: bool)
    ensures r <==> !Equals(left, right)
  {
    !Eq(left, right)
  }

  /** What can be passed to `Equals(object?)`. `AssetId` is not part of this
      model; only its wrapped integer is kept. */
  datatype Boxed = Null | BoxedPackageId(p: PackageId) | BoxedAssetId(internal: Int32) | BoxedOther

  /** `Equals(object?)`: `obj is AssetId id && Equals(id)`. Which overload
      the inner call reaches depends on conversions declared by `AssetId`,
      so its outcome is the parameter `withAssetId`. */
  function EqualsObject(p: PackageId, obj: Boxed, withAssetId: (PackageId, Int32) -> bool): (r: bool)
    ensures r ==> obj.BoxedAssetId?
    ensures obj.BoxedAssetId? ==> r == withAssetId(p, obj.internal)
  {
    match obj
    case BoxedAssetId(i) => withAssetId(p, i)
    case _ => false
  }

  /** `GetHashCode`: `HashCode.Combine` of the wrapped integer alone. */
  function HashCode(p: PackageId, combine: Int32 -> int): int
  {
    combine(p.External)
  }

  /** `==` is an equivalence and agrees with `Equals`, `!=` is its negation,
      and equal identifiers hash alike. */
  lemma EqualityLaws(a: PackageId, b: PackageId, c: PackageId, combine: Int32 -> int)
    ensures Eq(a, a)
    ensures Eq(a, b) == Eq(b, a)
    ensures Eq(a, b) && Eq(b, c) ==> Eq(a, c)
    ensures Neq(a, b) == !Eq(a, b)
    ensures Eq(a, b) ==> HashCode(a, combine) == HashCode(b, combine)
  {
  }

  /** A boxed `PackageId` is never equal through `Equals(object?)`, not even to itself. */
  lemma BoxedPackageIdNeverEqual(p: PackageId, withAssetId: (PackageId, Int32) -> bool)
    ensures !EqualsObject(p, BoxedPackageId(p), withAssetId)
  {
  }

  /** When `TryConvert` reads back what `Convert` writes, `Parse` inverts
      `ToString`. */
  lemma ParseToString(util: IdUtil, p: PackageId)
    requires util.TryConvert(util.Convert(p.External)) == Common.Some(p.External)
    ensures Parse(util, ToString(util, p)) == Common.Success(p)
  {
  }
}
