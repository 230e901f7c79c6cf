/** The clock of the Arduino core: times in 32 bits. */
module Clocks {

  const CLOCK_RANGE := 0x1_0000_0000
}
