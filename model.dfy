/**
 * The catalog entries the machine decides over. The price plays no part in any
 * decision of the machine; it is kept so that two entries that agree on type and
 * duration are still different catalog entries.
 */
module StudyCafeModel {

  /** The rental modes; FIXED is the fixed-seat mode. */
  datatype PassType = Hourly | Weekly | Fixed

  /** A study-cafe pass: its type, its duration (hours or weeks, depending on the type) and its price. */
  datatype Pass = Pass(passType: PassType, duration: int, price: int)

  /** A locker add-on offer: its type, duration and price. */
  datatype LockerPass = LockerPass(passType: PassType, duration: int, price: int)

  /** StudyCafePass.isSameType: taken to be equality of the pass type. */
  predicate IsSameType(pass: Pass, passType: PassType)
  {
    pass.passType == passType
  }
}
