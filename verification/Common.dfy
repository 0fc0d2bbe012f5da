/** Small types shared by the models of the separate components. */
module Common {

  datatype Option<+T> = None | Some(value: T)

  datatype Result<+T, +E> = Ok(value: T) | Err(error: E)

  /** One octet of a packet, certificate or address. */
  newtype byte = x: int | 0 <= x < 256

  function Min(a: int, b: int): int {
    if a < b then a else b
  }

  function Max(a: int, b: int): int {
    if a > b then a else b
  }

  /** The two octets of a 16-bit big-endian integer. */
  function PutUint16(n: nat): (b: seq<byte>)
    requires n < 0x1_0000
    ensures |b| == 2
  {
    [(n / 256) as byte, (n % 256) as byte]
  }

  function Uint16(b: seq<byte>): nat
    requires |b| == 2
  {
    b[0] as nat * 256 + b[1] as nat
  }

  /** And of a 32-bit one. */
  function PutUint32(n: nat): (b: seq<byte>)
    requires n < 0x1_0000_0000
    ensures |b| == 4
  {
    PutUint16(n / 0x1_0000) + PutUint16(n % 0x1_0000)
  }

  function Uint32(b: seq<byte>): nat
    requires |b| == 4
  {
    Uint16(b[..2]) * 0x1_0000 + Uint16(b[2..])
  }

  function Zeros(n: nat): (z: seq<byte>)
    ensures |z| == n && forall i :: 0 <= i < n ==> z[i] == 0
  {
    seq(n, _ => 0)
  }

  /** The longest DNS packet that is sent or read. */
  const MAX_PACKET := 4096

  /** The constructions of DNSCrypt, the preferred ones later. */
  datatype Construction = Undefined | XSalsa20Poly1305 | XChacha20Poly1305 | XWingPQ
  {
    predicate Classic() {
      XSalsa20Poly1305? || XChacha20Poly1305?
    }

    function Order(): nat {
      match this
      case Undefined => 0
      case XSalsa20Poly1305 => 1
      case XChacha20Poly1305 => 2
      case XWingPQ => 3
    }
  }
}
