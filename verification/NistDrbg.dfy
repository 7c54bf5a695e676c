/** What the two generators of NIST SP 800-90A share: limits, requests, and which are refused. */
module NistDrbg {
  import opened Streams

  const INT_MAX: nat := 0x7fff_ffff
  const MAXIMUM_BYTES_PER_REQUEST: nat := 65536

  datatype Outcome = Accepted | InsufficientEntropy | ReseedRequired | RequestTooLarge

  datatype Op =
    | Instantiate(entropy: Input, nonce: Input, personalization: Input)
    | Reseed(entropy: Input, more: Input)
    | Generate(additional: Input, size: nat)

  function Verdict(strength: nat, reseed: nat, op: Op): Outcome {
    match op
    case Generate(_, size) =>
      if reseed >= INT_MAX then ReseedRequired
      else if size > MAXIMUM_BYTES_PER_REQUEST then RequestTooLarge
      else Accepted
    case _ => if op.entropy.Length() < strength then InsufficientEntropy else Accepted
  }
}
