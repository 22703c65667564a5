/** Bytes and words where the code shifts and masks them. */
module BitVectors {

  type byte = bv8
  type word = bv32
}
