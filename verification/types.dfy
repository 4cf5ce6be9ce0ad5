/** Shared vocabulary of the programmer model: byte and port-word types,
    an optional value, and the outcome each programmer operation reports. */
module Types {

  /** One data byte of the chip (uint8_t in the firmware). */
  type Byte = bv8

  /** One 16-bit GPIO port register (ODR/IDR). */
  type Word = bv16

  datatype Option<+T> = None | Some(value: T)

  /** What a programmer operation reports. `Ok` means no error was printed. */
  datatype Status =
    | Ok
    | NoChip                                           // "Chip not selected"
    | TooBigAddress                                    // "Too big address"
    | IncorrectNumber                                  // "Incorrect number"
    | VerifyFailed(address: nat, got: Byte, want: Byte) // "Verify failed. got != want at address."
    | NotEmpty(address: nat, got: Byte)                // "Not empty. got at address"
    | BurnFailed(address: nat, bit: nat)               // "Burn failed"

  /** The bits of `b` that are set in `mask` (`b & mask`). */
  function Keep(b: Byte, mask: Byte): Byte {
    b & mask
  }

  /** Concatenation regroups freely. */
  lemma AppendAssoc<T>(a: seq<T>, b: seq<T>, c: seq<T>)
    ensures a + b + c == a + (b + c)
  {
  }

  function Min(a: int, b: int): int { if a <= b then a else b }
}
