/**
 The radio stack seen as an opaque transport: identifiers, the records the
 central hands to the manager, the power states of the central, and the
 requests the manager can issue to the radio.
 */
module Transport {

  datatype Option<+T> = None | Some(value: T)

  /** A Bluetooth UUID, kept opaque: two UUIDs are the same exactly when their bits are. */
  datatype Uuid = Uuid(bits: nat)

  /** The HM-10 serial bridge's service (FFE0) and its read/write characteristic (FFE1). */
  const HM10ServiceUuid: Uuid := Uuid(0xFFE0)
  const HM10CharacteristicUuid: Uuid := Uuid(0xFFE1)

  /** A remote device as the central reports it: a stable identifier and an optional advertised name. */
  datatype Peripheral = Peripheral(identifier: Uuid, name: Option<string>)

  /** A service of a connected peripheral; `handle` tells apart two services with the same UUID. */
  datatype Service = Service(handle: nat, uuid: Uuid)

  /** A characteristic of a service; `handle` tells apart two characteristics with the same UUID. */
  datatype Characteristic = Characteristic(handle: nat, uuid: Uuid)

  /** An error passed to a delegate callback, reduced to its human-readable description. */
  datatype TransportError = TransportError(localizedDescription: string)

  /** The power and authorisation state of the local central. */
  datatype CentralState = PoweredOn | PoweredOff | Resetting | Unauthorized | Unknown | Unsupported

  newtype byte = x: int | 0 <= x < 256

  /** One request the manager hands to the radio stack. */
  datatype Request =
    | ScanForPeripherals(services: seq<Uuid>)
    | StopScan
    | Connect(peripheral: Peripheral)
    | CancelConnection(peripheral: Peripheral)
    | DiscoverServices(peripheral: Peripheral, serviceUuids: seq<Uuid>)
    | DiscoverCharacteristics(peripheral: Peripheral, characteristicUuids: seq<Uuid>, service: Service)
    | SetNotifyValue(peripheral: Peripheral, enabled: bool, characteristic: Characteristic)
    | WriteValue(peripheral: Peripheral, data: seq<byte>, characteristic: Characteristic, withResponse: bool)
}
