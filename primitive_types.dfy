/**
 * The primitive-type contract (interface IType) for its two implementations
 * modelled here, as one sum type whose members dispatch to the handlers.
 */
module PrimitiveTypes {
  import opened Wrappers
  import opened MetadataType
  import DoubleType
  import DateTimeType

  /**
   * The PHP library behaviour the handlers call into: whether
   * `new \DateTime($value, new DateTimeZone('UTC'))` succeeds, and `urlencode`.
   */
  datatype Library = Library(dateTimeParses: string -> bool, urlEncode: string -> string)

  datatype PrimitiveType = EdmDouble | EdmDateTime
  {
    /** IType::getTypeCode: the code tells the two types apart. */
    function GetTypeCode(): (r: TypeCode)
      ensures r == TypeCode.Double <==> this == EdmDouble
      ensures r == TypeCode.DateTime <==> this == EdmDateTime
    {
      match this
      case EdmDouble => DoubleType.GetTypeCode()
      case EdmDateTime => DateTimeType.GetTypeCode()
    }

    /** IType::isCompatibleWith, given the other type's code. */
    function IsCompatibleWith(code: TypeCode): (r: bool)
      ensures code == GetTypeCode() ==> r
      ensures this == EdmDouble ==> (r <==> code in DoubleType.CompatibleCodes)
      ensures this == EdmDateTime ==> (r <==> code == TypeCode.DateTime)
    {
      match this
      case EdmDouble => DoubleType.IsCompatibleWith(code)
      case EdmDateTime => DateTimeType.IsCompatibleWith(code)
    }

    /** IType::validate: `false` leaves the out-value as it was; `true` has assigned it. */
    function Validate(value: string, prev: Option<string>, lib: Library): (r: Validation)
      ensures !r.ok ==> r.outValue == prev
      ensures r.ok ==> r.outValue.Some?
    {
      match this
      case EdmDouble => DoubleType.Validate(value, prev)
      case EdmDateTime => DateTimeType.Validate(value, prev, lib.dateTimeParses)
    }

    /** IType::convertToOData: the URI form of a value, closed by the type's own marker. */
    function ConvertToOData(value: string, lib: Library): (r: string)
      ensures |r| > 0 && r[|r| - 1] == (if this == EdmDouble then 'D' else '\'')
      ensures this == EdmDouble ==> r[..|r| - 1] == value
      ensures this == EdmDateTime ==> |r| == |lib.urlEncode(value)| + 10 && r[..9] == DateTimeType.Prefix && r[9..|r| - 1] == lib.urlEncode(value)
    {
      match this
      case EdmDouble => DoubleType.ConvertToOData(value)
      case EdmDateTime => DateTimeType.ConvertToOData(value, lib.urlEncode)
    }

    /** IType::getFullTypeName: the EDM name of the type. */
    function GetFullTypeName(): (r: string)
      ensures r == (if this == EdmDouble then "Edm.Double" else "Edm.DateTime")
    {
      match this
      case EdmDouble => DoubleType.FullTypeName()
      case EdmDateTime => DateTimeType.FullTypeName()
    }

    /** IType::getName, which both types answer with their full name. */
    function GetName(): (r: string)
      ensures r == GetFullTypeName()
    {
      match this
      case EdmDouble => DoubleType.Name()
      case EdmDateTime => DateTimeType.Name()
    }
  }

  /**
   * Each type is named by its full EDM name, and among the two, each is
   * compatible with exactly itself.
   */
  lemma Identity(t: PrimitiveType, u: PrimitiveType)
    ensures t.GetName() == t.GetFullTypeName()
    ensures t.GetFullTypeName() == (if t.EdmDouble? then "Edm.Double" else "Edm.DateTime")
    ensures t.IsCompatibleWith(u.GetTypeCode()) <==> t == u
  {
  }
}
