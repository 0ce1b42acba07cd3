/**
 * The persisted entity (`ParkingSpotModel`): the ten request properties
 * plus the identifier the store assigns and the registration time.
 */
module Models {
  import opened Wrappers
  import opened Dtos

  /** A UTC `LocalDateTime`, kept opaque: no date arithmetic is needed. */
  datatype Timestamp = Timestamp(utcTicks: int)

  datatype ParkingSpotModel = ParkingSpotModel(
    id: Option<int>,
    parkingSpotNumber: JString,
    licensePlateCar: JString,
    brandCar: JString,
    modelCar: JString,
    colorCar: JString,
    responsibleName: JString,
    apartment: JString,
    block: JString,
    email: JString,
    cpf: JString,
    registrationDate: Option<Timestamp>)
  {
    /** The property the request body names `f`. */
    function Get(f: Field): JString {
      match f
      case ParkingSpotNumber => parkingSpotNumber
      case LicensePlateCar => licensePlateCar
      case BrandCar => brandCar
      case ModelCar => modelCar
      case ColorCar => colorCar
      case ResponsibleName => responsibleName
      case Apartment => apartment
      case Block => block
      case Email => email
      case Cpf => cpf
    }
  }

  /**
   * `BeanUtils.copyProperties(dto, new ParkingSpotModel())`: every property
   * the two classes share is copied; the body has no `id` and no
   * `registrationDate`, so those stay null.
   */
  function CopyProperties(d: ParkingSpotDto): (m: ParkingSpotModel)
    ensures forall f :: m.Get(f) == d.Get(f)
    ensures m.id.None? && m.registrationDate.None?
  {
    ParkingSpotModel(
      None,
      d.parkingSpotNumber, d.licensePlateCar, d.brandCar, d.modelCar, d.colorCar,
      d.responsibleName, d.apartment, d.block, d.email, d.cpf,
      None)
  }
}
