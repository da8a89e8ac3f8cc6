/** The records main.go and server/server.go exchange: a backend's
    `ServerInfo`, the table of registered backends keyed by name, a decoded
    control command and a decoded configuration file. */
module ProxyTypes {

  /** One backend. `addr` is meaningless for a tunnel. */
  datatype ServerInfo = ServerInfo(name: string, addr: string, tunnel: bool, secure: bool)

  /** `serverInfoMap`: backends keyed by their name (the first path
      segment a client uses to reach them). */
  type ServerTable = map<string, ServerInfo>

  /** A control command after JSON decoding. */
  datatype Command = Command(action: string, info: ServerInfo, shutdownTimeout: int)

  /** The parts of a configuration file that the reload logic reads. */
  datatype ProxyConfig = ProxyConfig(servers: seq<ServerInfo>, shutdown: bool, forceShutdown: bool)
}
