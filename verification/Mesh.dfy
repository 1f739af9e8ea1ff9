/** The mesh's own entities, as several components see them. */
module Mesh {
  import opened Prelude

  datatype EventType = Add | Update | Delete

  datatype AppType = Deployment | Rollout

  type Ports = map<string, nat>

  /** An endpoint of a service entry; `appType` is its label, None when it has none. */
  datatype Endpoint = Endpoint(address: string, ports: Ports, locality: string, weight: nat, appType: Option<AppType>)

  /** A weighted destination of a route. */
  datatype Destination = Destination(host: string, port: nat, weight: int)
}
