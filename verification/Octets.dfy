// The bytes that the stream handlers move about.
module Octets {

  type byte = x: int | 0 <= x < 0x100
}
