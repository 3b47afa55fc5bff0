/**
 * The pigpio daemon calls the trackers make, recorded as values so that the
 * order of hardware commands can be stated and proved.
 */
module Pigpio {

  datatype Command =
    | SetMode(pin: int)                       // set_mode(pin, pigpio.OUTPUT)
    | SetPwmFrequency(pin: int, hz: int)      // set_PWM_frequency(pin, hz)
    | SetPwmDutycycle(pin: int, duty: int)    // set_PWM_dutycycle(pin, duty)
    | SetServoPulsewidth(pin: int, us: int)   // set_servo_pulsewidth(pin, us)

  /** Servo output frequency set up at start, in hertz. */
  const ServoHz := 50

  /** Make `pin` an output and start 50 Hz PWM on it. */
  function Setup(pin: int): seq<Command>
  {
    [SetMode(pin), SetPwmFrequency(pin, ServoHz)]
  }

  /** De-energise `pin`: duty cycle 0, then PWM frequency 0. */
  function DeEnergise(pin: int): seq<Command>
  {
    [SetPwmDutycycle(pin, 0), SetPwmFrequency(pin, 0)]
  }

}
