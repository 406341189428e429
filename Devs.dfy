/** `Dev` (Dev.py): the latest readings of one device and the average last
    published for it. */
module Devs {
  import opened Wrappers

  /** One device's record.  `average` is `None` where `get_average` answered
      `None`. */
  datatype Dev = Dev(device: string, temperature: real, humidity: real, battery: real, average: Option<real>)

  /** `Dev(device)`: every reading `0.0`, average `0.0`. */
  function NewDev(device: string): Dev {
    Dev(device, 0.0, 0.0, 0.0, Some(0.0))
  }
}
