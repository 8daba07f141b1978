module Bytes {
  type byte = x: nat | x < 256
}
