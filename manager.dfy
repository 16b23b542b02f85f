/**
 The HM-10 connection manager: caller commands (scan, stop, connect,
 disconnect, send) and the radio's delegate callbacks, each updating the
 manager's fields in place. Every request handed to the radio is appended
 to the ghost log `requests`, so contracts can say what was asked of it.
 */
module Manager {
  import opened Transport
  import ScanList
  import Gatt
  import Utf8

  const NotAvailableMessage := "Bluetooth is not available"
  const PoweredOffMessage := "Bluetooth is powered off"
  const ConnectFailedMessage := "Failed to connect to device"
  const ServicesErrorPrefix := "Error discovering services: "
  const CharacteristicsErrorPrefix := "Error discovering characteristics: "

  /** A snapshot of every field of the manager other than the request log. */
  datatype ManagerState = ManagerState(
    centralState: CentralState,
    discoveredDevices: seq<Peripheral>,
    isConnected: bool,
    isScanning: bool,
    textToSend: string,
    showError: bool,
    errorMessage: string,
    connectedPeripheral: Option<Peripheral>,
    writeCharacteristic: Option<Characteristic>)

  class BluetoothManager {
    /** The state of the central, as last reported by the radio. */
    var centralState: CentralState
    var discoveredDevices: seq<Peripheral>
    var isConnected: bool
    var isScanning: bool
    /** The outbound text, edited by the user interface. */
    var textToSend: string
    /** The error slot: a flag and the latest message. */
    var showError: bool
    var errorMessage: string
    var connectedPeripheral: Option<Peripheral>
    var writeCharacteristic: Option<Characteristic>
    /** Every request handed to the radio, oldest first. */
    ghost var requests: seq<Request>

    ghost function State(): ManagerState
      reads this
    {
      ManagerState(centralState, discoveredDevices, isConnected, isScanning, textToSend,
             showError, errorMessage, connectedPeripheral, writeCharacteristic)
    }

    /**
     The manager's invariant: the scan list holds each identifier once, a
     connection is only reported with a peripheral held, and the write path,
     when held, is the FFE1 characteristic.
     */
    ghost predicate Valid()
      reads this
    {
      && ScanList.NoDuplicateIds(discoveredDevices)
      && (isConnected ==> connectedPeripheral.Some?)
      && (writeCharacteristic.Some? ==> writeCharacteristic.value.uuid == HM10CharacteristicUuid)
    }

    /** A fresh manager; the central starts in the unknown state until the radio reports. */
    constructor ()
      ensures Valid()
      ensures State() == ManagerState(Unknown, [], false, false, "", false, "", None, None)
      ensures requests == []
    {
      centralState := Unknown;
      discoveredDevices := [];
      isConnected := false;
      isScanning := false;
      textToSend := "";
      showError := false;
      errorMessage := "";
      connectedPeripheral := None;
      writeCharacteristic := None;
      requests := [];
    }

    /** Fill the error slot: the latest message replaces any earlier one. */
    method ShowError(message: string)
      requires Valid()
      modifies this
      ensures Valid()
      ensures State() == old(State()).(showError := true, errorMessage := message)
      ensures requests == old(requests)
    {
      errorMessage := message;
      showError := true;
    }

    /** Start a scan filtered on the HM-10 service, unless the central is not powered on. */
    method StartScan()
      requires Valid()
      modifies this
      ensures Valid()
      ensures old(centralState) != PoweredOn ==>
        State() == old(State()).(showError := true, errorMessage := NotAvailableMessage) &&
        requests == old(requests)
      ensures old(centralState) == PoweredOn ==>
        State() == old(State()).(discoveredDevices := [], isScanning := true) &&
        requests == old(requests) + [ScanForPeripherals([HM10ServiceUuid])]
    {
      if centralState != PoweredOn {
        ShowError(NotAvailableMessage);
        return;
      }
      discoveredDevices := [];
      isScanning := true;
      requests := requests + [ScanForPeripherals([HM10ServiceUuid])];
    }

    /** Stop scanning; the stop request is issued whether or not a scan is running. */
    method StopScan()
      requires Valid()
      modifies this
      ensures Valid()
      ensures State() == old(State()).(isScanning := false)
      ensures requests == old(requests) + [Request.StopScan]
    {
      requests := requests + [Request.StopScan];
      isScanning := false;
    }

    /** The scan window has elapsed: stop the scan if it is still running. */
    method ScanTimeout()
      requires Valid()
      modifies this
      ensures Valid()
      ensures State() == old(State()).(isScanning := false)
      ensures requests == old(requests) + (if old(isScanning) then [Request.StopScan] else [])
    {
      if isScanning {
        StopScan();
      }
    }

    /** Stop any scan, then ask the radio to connect to `peripheral`. */
    method ConnectToDevice(peripheral: Peripheral)
      requires Valid()
      modifies this
      ensures Valid()
      ensures State() == old(State()).(isScanning := false)
      ensures requests == old(requests) + [Request.StopScan, Connect(peripheral)]
    {
      StopScan();
      requests := requests + [Connect(peripheral)];
    }

    /** Ask the radio to drop the connection, if a peripheral is held; the fields change only when the radio reports back. */
    method Disconnect()
      requires Valid()
      modifies this
      ensures Valid()
      ensures State() == old(State())
      ensures requests == old(requests) +
        (if old(connectedPeripheral).Some? then [CancelConnection(old(connectedPeripheral).value)] else [])
    {
      if connectedPeripheral.Some? {
        requests := requests + [CancelConnection(connectedPeripheral.value)];
      }
    }

    /**
     Write the pending text, unacknowledged, when both the peripheral and the
     write characteristic are held, and clear it; otherwise do nothing at all.
     */
    method SendData()
      requires Valid()
      modifies this
      ensures Valid()
      ensures old(writeCharacteristic).Some? && old(connectedPeripheral).Some? ==>
        State() == old(State()).(textToSend := "") &&
        requests == old(requests) + [WriteValue(old(connectedPeripheral).value, Utf8.Encode(old(textToSend)),
                                                old(writeCharacteristic).value, false)]
      ensures old(writeCharacteristic).None? || old(connectedPeripheral).None? ==>
        State() == old(State()) && requests == old(requests)
    {
      if writeCharacteristic.None? || connectedPeripheral.None? {
        return;
      }
      var data := Utf8.Encode(textToSend);
      requests := requests + [WriteValue(connectedPeripheral.value, data, writeCharacteristic.value, false)];
      textToSend := "";
    }

    /** The radio reports a new central state. */
    method DidUpdateState(state: CentralState)
      requires Valid()
      modifies this
      ensures Valid()
      ensures state == PoweredOn ==> State() == old(State()).(centralState := state)
      ensures state == PoweredOff ==>
        State() == old(State()).(centralState := state, showError := true,
                                   errorMessage := PoweredOffMessage, isConnected := false)
      ensures state != PoweredOn && state != PoweredOff ==>
        State() == old(State()).(centralState := state, showError := true,
                                   errorMessage := NotAvailableMessage, isConnected := false)
      ensures requests == old(requests)
    {
      centralState := state;
      match state
      case PoweredOn =>
      case PoweredOff =>
        ShowError(PoweredOffMessage);
        isConnected := false;
      case Resetting | Unauthorized | Unknown | Unsupported =>
        ShowError(NotAvailableMessage);
        isConnected := false;
    }

    /** A scan reported `peripheral`: list it unless its identifier is listed already. */
    method DidDiscover(peripheral: Peripheral)
      requires Valid()
      modifies this
      ensures Valid()
      ensures State() == old(State()).(discoveredDevices := ScanList.WithDiscovered(old(discoveredDevices), peripheral))
      ensures requests == old(requests)
    {
      if !ScanList.ContainsIdentifier(discoveredDevices, peripheral.identifier) {
        discoveredDevices := discoveredDevices + [peripheral];
      }
    }

    /** The radio connected to `peripheral`: hold it and discover the HM-10 service only. */
    method DidConnect(peripheral: Peripheral)
      requires Valid()
      modifies this
      ensures Valid()
      ensures State() == old(State()).(isConnected := true, connectedPeripheral := Some(peripheral))
      ensures requests == old(requests) + [DiscoverServices(peripheral, [HM10ServiceUuid])]
    {
      isConnected := true;
      connectedPeripheral := Some(peripheral);
      requests := requests + [DiscoverServices(peripheral, [HM10ServiceUuid])];
    }

    /** The connection was dropped: release the peripheral and the write path. */
    method DidDisconnect(peripheral: Peripheral, error: Option<TransportError>)
      requires Valid()
      modifies this
      ensures Valid()
      ensures State() == old(State()).(isConnected := false, connectedPeripheral := None, writeCharacteristic := None)
      ensures requests == old(requests)
    {
      isConnected := false;
      connectedPeripheral := None;
      writeCharacteristic := None;
    }

    /** A connection attempt failed. */
    method DidFailToConnect(peripheral: Peripheral, error: Option<TransportError>)
      requires Valid()
      modifies this
      ensures Valid()
      ensures State() == old(State()).(showError := true, errorMessage := ConnectFailedMessage, isConnected := false)
      ensures requests == old(requests)
    {
      ShowError(ConnectFailedMessage);
      isConnected := false;
    }

    /**
     Service discovery finished on `peripheral`, which now lists `services`:
     on an error fill the error slot; otherwise request characteristic FFE1
     of every FFE0 service, in order.
     */
    method DidDiscoverServices(peripheral: Peripheral, services: Option<seq<Service>>, error: Option<TransportError>)
      requires Valid()
      modifies this
      ensures Valid()
      ensures error.Some? ==>
        State() == old(State()).(showError := true,
                                   errorMessage := ServicesErrorPrefix + error.value.localizedDescription) &&
        requests == old(requests)
      ensures error.None? ==>
        State() == old(State()) &&
        requests == old(requests) +
          (if services.Some? then Gatt.CharacteristicRequests(peripheral, services.value) else [])
    {
      if error.Some? {
        ShowError(ServicesErrorPrefix + error.value.localizedDescription);
        return;
      }
      if services.None? {
        return;
      }
      var list := services.value;
      for i := 0 to |list|
        invariant State() == old(State())
        invariant requests == old(requests) + Gatt.CharacteristicRequests(peripheral, list[..i])
      {
        assert list[..i + 1][..i] == list[..i];
        if list[i].uuid == HM10ServiceUuid {
          requests := requests + [DiscoverCharacteristics(peripheral, [HM10CharacteristicUuid], list[i])];
        }
      }
      assert list[..|list|] == list;
    }

    /**
     Characteristic discovery finished for `service`, which now lists
     `characteristics`: on an error fill the error slot and keep the write
     path; otherwise every FFE1 characteristic in turn becomes the write path
     and gets notifications enabled, so the last one is kept.
     */
    method DidDiscoverCharacteristics(peripheral: Peripheral, service: Service,
                                      characteristics: Option<seq<Characteristic>>, error: Option<TransportError>)
      requires Valid()
      modifies this
      ensures Valid()
      ensures error.Some? ==>
        State() == old(State()).(showError := true,
                                   errorMessage := CharacteristicsErrorPrefix + error.value.localizedDescription) &&
        requests == old(requests)
      ensures error.None? && characteristics.None? ==>
        State() == old(State()) && requests == old(requests)
      ensures error.None? && characteristics.Some? ==>
        State() == old(State()).(writeCharacteristic :=
          Gatt.ResolveWriteCharacteristic(old(writeCharacteristic), characteristics.value)) &&
        requests == old(requests) + Gatt.NotifyRequests(peripheral, characteristics.value)
    {
      if error.Some? {
        ShowError(CharacteristicsErrorPrefix + error.value.localizedDescription);
        return;
      }
      if characteristics.None? {
        return;
      }
      var list := characteristics.value;
      for i := 0 to |list|
        invariant Valid()
        invariant State() == old(State()).(writeCharacteristic :=
          Gatt.ResolveWriteCharacteristic(old(writeCharacteristic), list[..i]))
        invariant requests == old(requests) + Gatt.NotifyRequests(peripheral, list[..i])
      {
        Gatt.ResolveStep(peripheral, old(writeCharacteristic), list, i);
        if list[i].uuid == HM10CharacteristicUuid {
          writeCharacteristic := Some(list[i]);
          requests := requests + [SetNotifyValue(peripheral, true, list[i])];
        }
      }
      assert list[..|list|] == list;
    }
  }
}
