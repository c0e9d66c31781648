/** Clock readings as the queues use them: seconds and microseconds held in two longs. */
module TimeStamps {
  const MICROS: int := 1000000

  /** Integer division of C++, which truncates toward zero. */
  function TruncDiv(a: int, b: int): int
    requires b > 0
  {
    if a >= 0 then a / b else -((-a) / b)
  }

  datatype TimeStamp = TimeStamp(seconds: int, microSeconds: int) {
    function GetMSeconds(): int {
      TruncDiv(microSeconds, 1000)
    }

    function ToUSeconds(): int {
      seconds * MICROS + microSeconds
    }

    function Minus(other: TimeStamp): TimeStamp {
      TimeStamp(seconds - other.seconds, microSeconds - other.microSeconds)
    }

    predicate Less(other: TimeStamp) {
      ToUSeconds() < other.ToUSeconds()
    }

    /** What gettimeofday delivers. */
    predicate IsReading() {
      0 <= seconds && 0 <= microSeconds < MICROS
    }
  }
}
