/**
 Values shared by the registry, the store and the config manager of the
 ngrok server's user-configuration component.
 */
module Types {

  /** Go's `int64`, the type of the traffic counters. */
  newtype int64 = x: int | -0x8000_0000_0000_0000 <= x < 0x8000_0000_0000_0000

  datatype Option<+T> = None | Some(value: T)

  /**
   The durable per-account record. `userId` is the secret bound on first
   login (empty while unbound), `authId` the client id that keys the
   account, `dns` the subdomains it owns.
   */
  datatype UserConfig = UserConfig(userId: string, authId: string, dns: seq<string>)

  /** The errors the registry returns: "exists", "dns exists", "not exists", "already bind". */
  datatype Error = Exists | DnsExists | NotExists | AlreadyBind

  /** A Go `error` result: nil (Pass) or an error. */
  datatype Outcome = Pass | Fail(error: Error)

  /** A Go `(value, error)` pair where exactly one side is meaningful. */
  datatype Result<+T> = Ok(value: T) | Err(error: Error)
}
