/** Small result types that stand for the nullable returns and the caught exceptions of the scanner. */
module Outcomes {

  /** A value or its absence (a C# `null` return). */
  datatype Option<+T> = None | Some(value: T)

  /**
    * What a call into the operating system produced: the text it returned, or
    * the message of the exception it raised.  Stands for `Dns.GetHostEntry`,
    * and for the captured standard output of the `nbtstat -A` and `arp -a` processes.
    */
  datatype Captured = Output(text: string) | Raised(message: string)

  /** What the latency sampler and the ARP lookup put before the message of an exception they catch. */
  const ErrorPrefix := "Error: "
}
