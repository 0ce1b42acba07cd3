/**
 * The request body of the create and update endpoints (`ParkingSpotDTO`) and
 * the bean-validation constraints declared on its ten fields.
 */
module Dtos {
  import opened Wrappers

  /** A Java `String` reference: `None` is `null`. */
  type JString = Option<string>

  /** The ten properties of the request body, in declaration order. */
  datatype Field =
    | ParkingSpotNumber | LicensePlateCar | BrandCar | ModelCar | ColorCar
    | ResponsibleName | Apartment | Block | Email | Cpf

  datatype ParkingSpotDto = ParkingSpotDto(
    parkingSpotNumber: JString,
    licensePlateCar: JString,
    brandCar: JString,
    modelCar: JString,
    colorCar: JString,
    responsibleName: JString,
    apartment: JString,
    block: JString,
    email: JString,
    cpf: JString)
  {
    /** The property named by `f` (a Lombok getter). */
    function Get(f: Field): JString {
      match f
      case ParkingSpotNumber => parkingSpotNumber
      case LicensePlateCar => licensePlateCar
      case BrandCar => brandCar
      case ModelCar => modelCar
      case ColorCar => colorCar
      case ResponsibleName => responsibleName
      case Apartment => apartment
      case Block => block
      case Email => email
      case Cpf => cpf
    }

    /** The same body with property `f` set to `v` (a Lombok setter). */
    function With(f: Field, v: JString): (d: ParkingSpotDto)
      ensures d.Get(f) == v
      ensures forall g :: g != f ==> d.Get(g) == Get(g)
    {
      match f
      case ParkingSpotNumber => this.(parkingSpotNumber := v)
      case LicensePlateCar => this.(licensePlateCar := v)
      case BrandCar => this.(brandCar := v)
      case ModelCar => this.(modelCar := v)
      case ColorCar => this.(colorCar := v)
      case ResponsibleName => this.(responsibleName := v)
      case Apartment => this.(apartment := v)
      case Block => this.(block := v)
      case Email => this.(email := v)
      case Cpf => this.(cpf := v)
    }
  }

  /** The default messages of the constraints, as tags. */
  datatype Message =
    | Required(field: Field)  // the @NotBlank message of that field
    | PlateTooLong            // the @Size message of the licence plate
    | InvalidEmail            // the @Email message
    | InvalidCpf              // the @CPF message

  /** One entry of the binding result: the failing property and its message. */
  datatype FieldError = FieldError(field: Field, message: Message)

  /** The `max` of the `@Size` constraint on the licence plate. */
  const PlateMaxLength: nat := 7

  /** `String.trim()` removes every leading and trailing char up to U+0020. */
  predicate IsBlank(s: string) {
    forall i :: 0 <= i < |s| ==> s[i] <= ' '
  }

  /** `@NotBlank`: not null and not empty once trimmed. */
  predicate NotBlank(v: JString) {
    v.Some? && !IsBlank(v.value)
  }

  /** `@Size(max = 7)`: null is valid, otherwise at most seven chars. */
  predicate SizeOk(v: JString) {
    v.None? || |v.value| <= PlateMaxLength
  }

  /** `@Email`: null is valid; the address syntax is the parameter's. */
  predicate EmailOk(v: JString, isEmail: string -> bool) {
    v.None? || isEmail(v.value)
  }

  /** `@CPF`: null is valid; the Brazilian checksum format is the parameter's. */
  predicate CpfOk(v: JString, isCpf: string -> bool) {
    v.None? || isCpf(v.value)
  }

  /** Every constraint declared on property `f` holds. */
  predicate FieldOk(d: ParkingSpotDto, f: Field, isEmail: string -> bool, isCpf: string -> bool) {
    && NotBlank(d.Get(f))
    && (f == LicensePlateCar ==> SizeOk(d.Get(f)))
    && (f == Email ==> EmailOk(d.Get(f), isEmail))
    && (f == Cpf ==> CpfOk(d.Get(f), isCpf))
  }

  /** `@Valid` succeeds: the conjunction of all constraints of the class. */
  predicate IsValid(d: ParkingSpotDto, isEmail: string -> bool, isCpf: string -> bool) {
    && NotBlank(d.parkingSpotNumber)
    && NotBlank(d.licensePlateCar) && SizeOk(d.licensePlateCar)
    && NotBlank(d.brandCar)
    && NotBlank(d.modelCar)
    && NotBlank(d.colorCar)
    && NotBlank(d.responsibleName)
    && NotBlank(d.apartment)
    && NotBlank(d.block)
    && EmailOk(d.email, isEmail) && NotBlank(d.email)
    && CpfOk(d.cpf, isCpf) && NotBlank(d.cpf)
  }

  function RequiredError(d: ParkingSpotDto, f: Field): seq<FieldError> {
    if NotBlank(d.Get(f)) then [] else [FieldError(f, Required(f))]
  }

  /**
   * The errors the validator reports for one property, in annotation order:
   * each broken constraint reports its own message once, and no other
   * message appears.
   */
  function FieldViolations(d: ParkingSpotDto, f: Field, isEmail: string -> bool, isCpf: string -> bool): (r: seq<FieldError>)
    ensures forall e :: e in r ==> e.field == f
    ensures r == [] <==> FieldOk(d, f, isEmail, isCpf)
    ensures FieldError(f, Required(f)) in r <==> !NotBlank(d.Get(f))
    ensures FieldError(f, PlateTooLong) in r <==> f == LicensePlateCar && !SizeOk(d.Get(f))
    ensures FieldError(f, InvalidEmail) in r <==> f == Email && !EmailOk(d.Get(f), isEmail)
    ensures FieldError(f, InvalidCpf) in r <==> f == Cpf && !CpfOk(d.Get(f), isCpf)
    ensures forall e :: e in r ==> e.message in {Required(f), PlateTooLong, InvalidEmail, InvalidCpf}
    ensures forall i, j :: 0 <= i < j < |r| ==> r[i] != r[j]
  {
    match f
    case LicensePlateCar =>
      RequiredError(d, f)
      + (if SizeOk(d.licensePlateCar) then [] else [FieldError(f, PlateTooLong)])
    case Email =>
      (if EmailOk(d.email, isEmail) then [] else [FieldError(f, InvalidEmail)])
      + RequiredError(d, f)
    case Cpf =>
      (if CpfOk(d.cpf, isCpf) then [] else [FieldError(f, InvalidCpf)])
      + RequiredError(d, f)
    case _ => RequiredError(d, f)
  }

  /** The properties in declaration order; the validator reports them so. */
  const DeclarationOrder: seq<Field> :=
    [ParkingSpotNumber, LicensePlateCar, BrandCar, ModelCar, ColorCar,
     ResponsibleName, Apartment, Block, Email, Cpf]

  /** The errors of the properties `fs`, one property after the other. */
  function ViolationsOf(d: ParkingSpotDto, fs: seq<Field>, isEmail: string -> bool, isCpf: string -> bool): (r: seq<FieldError>)
    ensures forall e :: e in r ==> e.field in fs && !FieldOk(d, e.field, isEmail, isCpf)
    ensures forall e :: e in r ==> e in FieldViolations(d, e.field, isEmail, isCpf)
    ensures forall f, e :: f in fs && e in FieldViolations(d, f, isEmail, isCpf) ==> e in r
    ensures forall f :: f in fs && !FieldOk(d, f, isEmail, isCpf) ==> exists e :: e in r && e.field == f
    ensures r == [] <==> forall f :: f in fs ==> FieldOk(d, f, isEmail, isCpf)
  {
    if fs == [] then []
    else
      var head := FieldViolations(d, fs[0], isEmail, isCpf);
      assert !FieldOk(d, fs[0], isEmail, isCpf) ==> head[0] in head;
      head + ViolationsOf(d, fs[1..], isEmail, isCpf)
  }

  lemma EveryFieldDeclared()
    ensures forall f :: f in DeclarationOrder
  {
    forall f ensures f in DeclarationOrder {
      match f
      case ParkingSpotNumber =>
      case LicensePlateCar =>
      case BrandCar =>
      case ModelCar =>
      case ColorCar =>
      case ResponsibleName =>
      case Apartment =>
      case Block =>
      case Email =>
      case Cpf =>
    }
  }

  /**
   * The binding result's error list: every entry names a property that
   * breaks a constraint, every such property has an entry, and every error
   * a property's constraints report is listed.
   */
  function Violations(d: ParkingSpotDto, isEmail: string -> bool, isCpf: string -> bool): (r: seq<FieldError>)
    ensures forall e :: e in r ==> !FieldOk(d, e.field, isEmail, isCpf)
    ensures forall e :: e in r ==> e in FieldViolations(d, e.field, isEmail, isCpf)
    ensures forall f, e :: e in FieldViolations(d, f, isEmail, isCpf) ==> e in r
    ensures forall f :: !FieldOk(d, f, isEmail, isCpf) ==> exists e :: e in r && e.field == f
    ensures r == [] <==> forall f :: FieldOk(d, f, isEmail, isCpf)
  {
    EveryFieldDeclared();
    ViolationsOf(d, DeclarationOrder, isEmail, isCpf)
  }

  /**
   * The class is valid exactly when each property meets its own
   * constraints, and exactly when the validator reports no error.
   */
  lemma ValidIffNoViolations(d: ParkingSpotDto, isEmail: string -> bool, isCpf: string -> bool)
    ensures IsValid(d, isEmail, isCpf) <==> forall f :: FieldOk(d, f, isEmail, isCpf)
    ensures IsValid(d, isEmail, isCpf) <==> Violations(d, isEmail, isCpf) == []
  {
    if IsValid(d, isEmail, isCpf) {
      forall f ensures FieldOk(d, f, isEmail, isCpf) {
        ValidFieldOk(d, f, isEmail, isCpf);
      }
    }
    if forall f :: FieldOk(d, f, isEmail, isCpf) {
      FieldsOkValid(d, isEmail, isCpf);
    }
  }

  lemma ValidFieldOk(d: ParkingSpotDto, f: Field, isEmail: string -> bool, isCpf: string -> bool)
    requires IsValid(d, isEmail, isCpf)
    ensures FieldOk(d, f, isEmail, isCpf)
  {
    match f
    case ParkingSpotNumber =>
    case LicensePlateCar =>
    case BrandCar =>
    case ModelCar =>
    case ColorCar =>
    case ResponsibleName =>
    case Apartment =>
    case Block =>
    case Email =>
    case Cpf =>
  }

  lemma FieldsOkValid(d: ParkingSpotDto, isEmail: string -> bool, isCpf: string -> bool)
    requires forall f :: FieldOk(d, f, isEmail, isCpf)
    ensures IsValid(d, isEmail, isCpf)
  {
    assert FieldOk(d, ParkingSpotNumber, isEmail, isCpf);
    assert FieldOk(d, LicensePlateCar, isEmail, isCpf);
    assert FieldOk(d, BrandCar, isEmail, isCpf);
    assert FieldOk(d, ModelCar, isEmail, isCpf);
    assert FieldOk(d, ColorCar, isEmail, isCpf);
    assert FieldOk(d, ResponsibleName, isEmail, isCpf);
    assert FieldOk(d, Apartment, isEmail, isCpf);
    assert FieldOk(d, Block, isEmail, isCpf);
    assert FieldOk(d, Email, isEmail, isCpf);
    assert FieldOk(d, Cpf, isEmail, isCpf);
  }

  /**
   * A plate longer than seven chars makes the body invalid; a non-blank
   * plate of one to seven chars meets both of its constraints.
   */
  lemma PlateLengthRule(d: ParkingSpotDto, isEmail: string -> bool, isCpf: string -> bool)
    ensures d.licensePlateCar.Some? && |d.licensePlateCar.value| > PlateMaxLength ==> !IsValid(d, isEmail, isCpf)
    ensures NotBlank(d.licensePlateCar) && |d.licensePlateCar.value| <= PlateMaxLength ==>
              1 <= |d.licensePlateCar.value| && FieldOk(d, LicensePlateCar, isEmail, isCpf)
  {
  }

  /**
   * No property but the plate has a length bound: in a valid body any
   * other property can be replaced by a non-blank string of any length
   * (meeting @Email or @CPF where declared) and the body stays valid.
   */
  lemma OnlyPlateIsBounded(d: ParkingSpotDto, f: Field, s: string, isEmail: string -> bool, isCpf: string -> bool)
    requires IsValid(d, isEmail, isCpf)
    requires f != LicensePlateCar && !IsBlank(s)
    requires f == Email ==> isEmail(s)
    requires f == Cpf ==> isCpf(s)
    ensures IsValid(d.With(f, Some(s)), isEmail, isCpf)
  {
    var d' := d.With(f, Some(s));
    ValidIffNoViolations(d, isEmail, isCpf);
    forall g ensures FieldOk(d', g, isEmail, isCpf) {
      assert FieldOk(d, g, isEmail, isCpf);
    }
    ValidIffNoViolations(d', isEmail, isCpf);
  }
}
