/** Privilege modes and access permissions, shared by every component. */
module Access {

  /** User, Supervisor and Machine mode, in order of privilege. */
  datatype Mode = U | S | M

  function Level(m: Mode): nat {
    match m
    case U => 0
    case S => 1
    case M => 3
  }

  /** The memPriv bit mask: read, write and execute permission. */
  datatype Priv = Priv(r: bool, w: bool, x: bool)

  const NONE := Priv(false, false, false)
  const RWX := Priv(true, true, true)

  /** (p & required) == required */
  predicate Covers(p: Priv, required: Priv) {
    && (required.r ==> p.r)
    && (required.w ==> p.w)
    && (required.x ==> p.x)
  }

  /** The simulated address space identifier: the ASID with the status bits that change permissions. */
  datatype SimAsid = SimAsid(asid: nat, mxr: bool, sum: bool)
}
