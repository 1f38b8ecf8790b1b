// One section on its way out, as internal/broadcast/carousel.go hands it to
// internal/multiplex/multiplex.go.
module Emissions {
  import opened Words

  type Pid = x: int | 0 <= x < 0x2000

  datatype Emission = Emission(pid: Pid, section: seq<Byte>)
}
