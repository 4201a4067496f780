/** A snapshot of a peripheral's GATT table, as one connection enumerates it. */
module Gatt {
  import opened OtaProtocol

  datatype Option<T> = None | Some(value: T)

  /** A characteristic: its type and its opaque per-connection handle. */
  datatype Characteristic = Characteristic(uuid: Uuid, handle: nat)

  /** A service entry: its type, its handle and its characteristics in table order. */
  datatype Service = Service(uuid: Uuid, handle: nat, characteristics: seq<Characteristic>)

  /** An ordered service table; stale cache entries may repeat a service with other handles. */
  type ServiceTable = seq<Service>

  /** Some characteristic in `cs` has type `u`. */
  predicate HasCharacteristic(cs: seq<Characteristic>, u: Uuid) {
    exists j :: 0 <= j < |cs| && cs[j].uuid == u
  }

  /** Position `j` holds the last characteristic of type `u` in `cs`. */
  predicate IsLastWith(cs: seq<Characteristic>, u: Uuid, j: int) {
    0 <= j < |cs| && cs[j].uuid == u && forall m :: j < m < |cs| ==> cs[m].uuid != u
  }

  /** Some OTA service entry of the table carries the data characteristic. */
  predicate HasOtaData(svcs: ServiceTable) {
    exists i :: 0 <= i < |svcs| && svcs[i].uuid == SVC && HasCharacteristic(svcs[i].characteristics, CDATA)
  }

  /** The table holds no OTA service entry at all. */
  predicate NoOtaService(svcs: ServiceTable) {
    forall i :: 0 <= i < |svcs| ==> svcs[i].uuid != SVC
  }
}
