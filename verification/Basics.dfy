/** What several modules share. */
module Basics {

  datatype Option<+T> = None | Some(value: T)

  const TWO16 := 0x1_0000
  const TWO32 := 0x1_0000_0000
  const TWO64 := 0x1_0000_0000_0000_0000
}
