/** Bytes as the scanner reads them from a file opened in binary mode. */
module Bytes {

  newtype byte = x: int | 0 <= x < 256

}
