/**
 Sequences of commands and callbacks, showing what callers can conclude
 from the manager's contracts alone.
 */
module Scenarios {
  import opened Transport
  import opened Manager
  import Utf8

  /** After the connection drops, a send issues no write and keeps the pending text. */
  method DisconnectThenSend(m: BluetoothManager, p: Peripheral, error: Option<TransportError>)
    requires m.Valid()
    modifies m
    ensures m.Valid()
    ensures !m.isConnected && m.connectedPeripheral.None? && m.writeCharacteristic.None?
    ensures m.textToSend == old(m.textToSend)
    ensures m.requests == old(m.requests)
  {
    m.DidDisconnect(p, error);
    m.SendData();
  }

  /** Power on, scan, and discover A, B and A again: the list is [A, B]. */
  method ScanSession(a: Peripheral, b: Peripheral, a2: Peripheral) returns (m: BluetoothManager)
    requires a.identifier != b.identifier && a2.identifier == a.identifier
    ensures fresh(m) && m.Valid()
    ensures m.State() == ManagerState(PoweredOn, [a, b], false, true, "", false, "", None, None)
    ensures m.requests == [ScanForPeripherals([HM10ServiceUuid])]
  {
    m := new BluetoothManager();
    m.DidUpdateState(PoweredOn);
    m.StartScan();
    m.DidDiscover(a);
    m.DidDiscover(b);
    assert m.discoveredDevices == [a, b];
    assert ScanList.ContainsIdentifier([a, b], a2.identifier) by {
      assert [a, b][0].identifier == a2.identifier;
    }
    m.DidDiscover(a2);
  }

  /**
   Connect to a peripheral, resolve the HM-10 service and
   characteristic, and send a line of text: the radio sees the stop, the
   connect, both discoveries, the notification and the write, in that order.
   */
  method ConnectSession(m: BluetoothManager, p: Peripheral, service: Service, ch: Characteristic, text: string)
    requires m.Valid()
    requires service.uuid == HM10ServiceUuid && ch.uuid == HM10CharacteristicUuid
    modifies m
    ensures m.Valid()
    ensures m.isConnected && m.connectedPeripheral == Some(p) && m.writeCharacteristic == Some(ch)
    ensures !m.isScanning && m.textToSend == ""
    ensures m.discoveredDevices == old(m.discoveredDevices)
    ensures m.requests == old(m.requests) + [
      Request.StopScan, Connect(p),
      DiscoverServices(p, [HM10ServiceUuid]),
      DiscoverCharacteristics(p, [HM10CharacteristicUuid], service),
      SetNotifyValue(p, true, ch),
      WriteValue(p, Utf8.Encode(text), ch, false)]
  {
    ghost var log := m.requests;
    m.ConnectToDevice(p);
    m.DidConnect(p);
    assert m.requests == log + [Request.StopScan, Connect(p), DiscoverServices(p, [HM10ServiceUuid])];
    assert [service][..0] == [];
    m.DidDiscoverServices(p, Some([service]), None);
    assert m.requests == log + [Request.StopScan, Connect(p), DiscoverServices(p, [HM10ServiceUuid]),
                                DiscoverCharacteristics(p, [HM10CharacteristicUuid], service)];
    assert [ch][..0] == [];
    m.DidDiscoverCharacteristics(p, service, Some([ch]), None);
    m.textToSend := text;
    m.SendData();
  }

  /** A whole session from a new manager: the scan session followed by the connect session on A. */
  method FullSession(a: Peripheral, b: Peripheral, a2: Peripheral, service: Service, ch: Characteristic, text: string)
    returns (m: BluetoothManager)
    requires a.identifier != b.identifier && a2.identifier == a.identifier
    requires service.uuid == HM10ServiceUuid && ch.uuid == HM10CharacteristicUuid
    ensures m.Valid()
    ensures m.discoveredDevices == [a, b]
    ensures m.isConnected && m.connectedPeripheral == Some(a) && m.writeCharacteristic == Some(ch)
    ensures !m.isScanning && m.textToSend == ""
    ensures m.requests == [
      ScanForPeripherals([HM10ServiceUuid]),
      Request.StopScan, Connect(a),
      DiscoverServices(a, [HM10ServiceUuid]),
      DiscoverCharacteristics(a, [HM10CharacteristicUuid], service),
      SetNotifyValue(a, true, ch),
      WriteValue(a, Utf8.Encode(text), ch, false)]
  {
    m := ScanSession(a, b, a2);
    ConnectSession(m, a, service, ch, text);
  }

  /** A run of discovery callbacks leaves the scan list as the run's discovery updates of the old list. */
  method DiscoverRun(m: BluetoothManager, ps: seq<Peripheral>)
    requires m.Valid()
    modifies m
    ensures m.Valid()
    ensures m.State() == old(m.State()).(discoveredDevices := ScanList.DiscoverAll(old(m.discoveredDevices), ps))
    ensures m.requests == old(m.requests)
  {
    for i := 0 to |ps|
      invariant m.Valid()
      invariant m.State() == old(m.State()).(discoveredDevices := ScanList.DiscoverAll(old(m.discoveredDevices), ps[..i]))
      invariant m.requests == old(m.requests)
    {
      assert ps[..i + 1] == ps[..i] + [ps[i]];
      ScanList.DiscoverAllSnoc(old(m.discoveredDevices), ps[..i], ps[i]);
      m.DidDiscover(ps[i]);
    }
    assert ps[..|ps|] == ps;
  }

  /** With the send path held, ASCII text reaches the radio byte for byte, one byte per character. */
  method SendAscii(m: BluetoothManager)
    requires m.Valid()
    requires m.connectedPeripheral.Some? && m.writeCharacteristic.Some?
    requires Utf8.IsAscii(m.textToSend)
    modifies m
    ensures m.Valid() && m.textToSend == ""
    ensures |m.requests| == |old(m.requests)| + 1 && m.requests[..|old(m.requests)|] == old(m.requests)
    ensures var w := m.requests[|m.requests| - 1];
      w.WriteValue? && !w.withResponse && |w.data| == |old(m.textToSend)| &&
      forall i :: 0 <= i < |w.data| ==> w.data[i] as int == old(m.textToSend)[i] as int
  {
    Utf8.EncodeAscii(m.textToSend);
    m.SendData();
  }
}
