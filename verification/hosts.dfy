/** Destinations, as every proxy protocol of the engine names them. */
module Hosts {
  import opened Bytes

  /** An address literal, or the bytes of a domain name. */
  datatype Host = V4(octets: bytes) | V6(octets: bytes) | Domain(name: bytes)

  datatype Target = Target(host: Host, port: u16)

  /** Literals have their fixed sizes; a domain is UTF-8 and short enough for a one-byte length. */
  predicate ValidHost(h: Host) {
    match h
    case V4(o) => |o| == 4
    case V6(o) => |o| == 16
    case Domain(name) => |name| < 256 && Utf8(name)
  }
}
