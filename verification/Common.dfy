/** Small definitions shared by the models. */
module Common {

  datatype Option<+T> = None | Some(value: T)

  /** The value a 32-bit `unsigned int` holds after being assigned `n`. */
  function Uint32(n: nat): nat {
    n % 0x1_0000_0000
  }
}
