/** The group parameters and the error type shared by the two hidden-order
    group implementations. */
module Hog {
  import opened Wrappers

  /** Parameters of the signed group QR_M^+: a generator G and a modulus M,
      both always present. The model takes G as a non-negative integer. */
  datatype RsaGroupParams = RsaGroupParams(g: nat, m: nat) {
    /** The modulus has to be at least 2 for the group to be meaningful. */
    predicate Valid() { m > 1 }
  }

  /** Parameters of Z_M^*: the generator is optional (a group need not be
      cyclic), the modulus is always present. */
  datatype UnsignedRsaGroupParams = UnsignedRsaGroupParams(g: Option<nat>, m: nat) {
    predicate Valid() { m > 1 }
  }

  /** The errors a group operation reports. */
  datatype RsaHogError = NotInvertible | NotCyclic

  /** The `Display` text of each error; different errors read differently. */
  function Display(e: RsaHogError): (msg: string)
    ensures e == NotInvertible <==> msg == "Group element not invertible"
    ensures e == NotCyclic <==> msg == "Group is not cyclic, missing generator"
  {
    match e
    case NotInvertible => "Group element not invertible"
    case NotCyclic => "Group is not cyclic, missing generator"
  }

  /** `Error::source`: no error wraps an underlying cause. */
  function Source(e: RsaHogError): (cause: Option<RsaHogError>)
    ensures cause.None?
  {
    None
  }
}
