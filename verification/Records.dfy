/** The sensor record that travels through the gateway. */
module Records {
  type Uint32 = i: int | 0 <= i < 0x1_0000_0000

  /** `data` stands for the exact value of the C double. */
  datatype Record = Record(sensorId: Uint32, data: real)
}
