/**
 * Shared vocabulary of the NORIA agent: address and time types, the two
 * process-wide constants of the `Commons` class, and an Option type.
 */
module Commons {

  /** An IPv4 address as its 32-bit value. */
  newtype Ipv4 = x: int | 0 <= x < 0x1_0000_0000

  /** An IEEE 802 MAC-48 address as its 48-bit value. */
  newtype Mac = x: int | 0 <= x < 0x1_0000_0000_0000

  /** A UDP port number. */
  newtype Port = x: int | 0 <= x < 0x1_0000

  /** Simulated time in seconds; the source keeps it in a `double` that is only
      subtracted and compared, so no floating-point behaviour is modelled. */
  type Time = real

  /** The value of a default-constructed ns-3 `Ipv4Address` (102.102.102.102):
      what a failed lookup returns and what an absent IPv4 header reports. */
  const DEFAULT_IP: Ipv4 := 0x6666_6666

  /** `Ipv4Address::GetZero ()`, 0.0.0.0, which `Reset` stores. */
  const ZERO_IP: Ipv4 := 0

  /** The value of a default-constructed `Mac48Address` (00:00:00:00:00:00). */
  const DEFAULT_MAC: Mac := 0

  /** Age (in seconds) at which a reservation expires; also the delay of the
      self-reservation reset and the period of the reservation sweep. */
  const RESERVED_LIFETIME: Time := 2.0

  /** The UDP port of OLSR control traffic (section 3.1 of RFC 3626). */
  const OLSR_PORT: Port := 698

  /** A reservation created at `created` is still alive at `now` exactly when its
      age is strictly below the lifetime. */
  predicate Alive(created: Time, now: Time) {
    now - created < RESERVED_LIFETIME
  }

  /** A UDP destination port marks OLSR control traffic exactly when it is 698. */
  predicate IsControlPort(port: Port) {
    port == OLSR_PORT
  }

  datatype Option<T> = None | Some(value: T)

  /** The survival window of a reservation: alive strictly before two seconds of
      age, expired from two seconds on. */
  lemma AliveWindow(created: Time, now: Time)
    ensures now < created + 2.0 ==> Alive(created, now)
    ensures now >= created + 2.0 ==> !Alive(created, now)
  {
  }

  /** Only port 698 is the control port. */
  lemma ControlPortIsOlsr(port: Port)
    ensures IsControlPort(port) <==> port == 698
  {
  }
}
