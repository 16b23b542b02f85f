# HM-10 Bluetooth manager, modelled in Dafny

The app drives an HM-10 serial-over-Bluetooth-LE bridge from an iPhone.
All of its logic sits in one class, `BluetoothManager`
(`CC/ContentView.swift`). That class works as a small connection state
machine. Caller commands change it: start scan, stop scan, connect,
disconnect, send text. So do the CoreBluetooth delegate callbacks: state
update, discover, connect, disconnect, fail to connect, services
discovered, characteristics discovered. This project models that class
and proves what each command and callback does to its fields and what it
asks of the radio.

The model is organised as follows:

- `Transport` (`transport.dfy`) treats CoreBluetooth as an opaque transport.
  A peripheral is an identifier plus an optional name. Services and
  characteristics are a handle plus a UUID, and a UUID is an opaque value
  compared by its bits. The central's state is one of six values.
  `Request` lists every call the manager can make into the radio.
- `Manager.BluetoothManager` (`manager.dfy`) is a class with the source's
  fields. It has one method per command and per callback, and each method
  updates the fields in place. Every radio call is appended to the ghost
  log `requests`. The 10-second auto-stop becomes the `ScanTimeout` event.
  `State()` takes a snapshot of all the other fields. Each method's
  `ensures` gives the new snapshot as the old one with named fields
  replaced, so "nothing else changes" is part of every contract. `Valid()`
  is the object invariant, and every method preserves it:
  - the scan list never holds one identifier twice;
  - `isConnected` implies a peripheral is held;
  - a held write characteristic is always FFE1.
- `ScanList` (`scan_list.dfy`) gives the scan-list update as a function,
  plus lemmas about runs of discoveries.
- `Gatt` (`gatt.dfy`) gives the two discovery loops as functions over the
  reported lists: which services get a characteristic request, which
  characteristic becomes the write path (the last FFE1 one), and which get
  notifications enabled.
- `Utf8` (`utf8.dfy`) is the UTF-8 encoder that turns `textToSend` into the
  write payload.
- `Scenarios` (`scenarios.dfy`) chains the contracts together. A send
  after a disconnect issues no write and keeps the text. A full session
  from a new manager (`FullSession`)
  (discover A, B, A; connect; resolve FFE0/FFE1; send) produces exactly
  the expected radio requests, in order. A run of discovery callbacks
  leaves the run's discovery updates in the scan list, and ASCII text
  reaches the write byte for byte.

Some of these behaviours are the code's own, and the model keeps them:

- `stopScan` always issues a stop request, even when no scan is running.
- `connectToDevice` and `disconnect` do not check the central's state.
- The callbacks do not check which peripheral or service they are about.
- The 10-second timers are never cancelled. A timer left over from an
  earlier scan can therefore stop a later scan early. For that reason
  `ScanTimeout` may arrive at any time, and it stops the scan exactly when
  `isScanning` is still true.
- A power-off or not-available state update, and a failed connection
  attempt, clear only `isConnected`. The peripheral and the write
  characteristic stay held, so a send after `DidUpdateState(PoweredOff)` or
  after `DidFailToConnect` still issues a write although the manager
  reports itself disconnected.
- A connect callback for a second peripheral replaces the held peripheral
  but keeps the write characteristic resolved on the first one, so the
  next send pairs the new peripheral with the old characteristic until
  characteristic discovery on the new one replaces it.

`CC/ContentView.swift` contains no drive mapping, no command throttling,
no motor wire format and no stop command on connection. It has no
connection-state enumeration either: its state is the boolean flags and
optional fields modelled here. What it writes is the user's text.

## Model

| member | source | states |
|---|---|---|
| `Manager.BluetoothManager.constructor` | CC/ContentView.swift:127-140 | a new manager has an empty scan list, is neither scanning nor connected, holds no peripheral or characteristic, has empty text and an empty error slot, has issued no radio request, and its central is in the unknown state |
| `Manager.BluetoothManager.ShowError` | CC/ContentView.swift:189-192 | the error slot holds exactly the given message with the flag raised (latest message wins); nothing else changes |
| `Manager.BluetoothManager.StartScan` | CC/ContentView.swift:142-151 | central not powered on: only the error slot changes, to "Bluetooth is not available", and no request is issued; powered on: the scan list is emptied, `isScanning` becomes true and exactly one scan filtered on FFE0 is requested |
| `Manager.BluetoothManager.StopScan` | CC/ContentView.swift:161-164 | `isScanning` is false afterwards and nothing else changes, so a second call leaves the same fields; one stop request is issued every time |
| `Manager.BluetoothManager.ScanTimeout` | CC/ContentView.swift:154-158 | the timer stops the scan (one stop request) only if `isScanning` is still true; either way `isScanning` is false afterwards and nothing else changes |
| `Manager.BluetoothManager.ConnectToDevice` | CC/ContentView.swift:166-170 | the scan is stopped before the connect is requested: the log grows by stop then connect(peripheral), and `isScanning` is false |
| `Manager.BluetoothManager.Disconnect` | CC/ContentView.swift:172-176 | no field changes; a cancel request for the held peripheral is issued when one is held, and nothing otherwise |
| `Manager.BluetoothManager.SendData` | CC/ContentView.swift:178-187 | with both a characteristic and a peripheral held: exactly one unacknowledged write of the text's UTF-8 bytes to them, then the text is cleared; otherwise no request, text kept, no error, nothing changed |
| `Manager.BluetoothManager.DidUpdateState` | CC/ContentView.swift:197-210 | records the new central state; powered on changes nothing else; powered off fills the error slot with "Bluetooth is powered off" and clears `isConnected`; every other state fills it with "Bluetooth is not available" and clears `isConnected` |
| `Manager.BluetoothManager.DidDiscover` | CC/ContentView.swift:212-216 | the scan list becomes the discovery update of the old list (see `ScanList.WithDiscovered`) and no other field changes; the invariant keeps identifiers unique |
| `Manager.BluetoothManager.DidConnect` | CC/ContentView.swift:218-222 | `isConnected` becomes true and the peripheral is held; exactly one service discovery, for FFE0 only, is requested |
| `Manager.BluetoothManager.DidDisconnect` | CC/ContentView.swift:224-228 | `isConnected` false, no peripheral and no write characteristic held, nothing else changes and no request is issued |
| `Manager.BluetoothManager.DidFailToConnect` | CC/ContentView.swift:230-233 | the error slot holds "Failed to connect to device" and `isConnected` is false; nothing else changes |
| `Manager.BluetoothManager.DidDiscoverServices` | CC/ContentView.swift:238-251 | on an error, only the error slot changes ("Error discovering services: " + description) and no request is issued; otherwise no field changes and the log grows by the characteristic requests for the reported services (none if none are reported) |
| `Manager.BluetoothManager.DidDiscoverCharacteristics` | CC/ContentView.swift:253-269 | on an error, only the error slot changes and the write characteristic is kept; with no list, nothing changes; otherwise the write characteristic becomes the resolved one and the log grows by the notification requests for the reported list (exactly one per FFE1 entry, see `Gatt.NotifyRequestsCount`) |
| `ScanList.WithDiscovered` | CC/ContentView.swift:212-216 | the list grows by at most one; the old entries are kept in order as a prefix; the peripheral's identifier is listed afterwards; the list grows exactly when that identifier was absent, and then the new last entry is the peripheral; unique identifiers stay unique |
| `ScanList.DiscoverAllSnoc` | CC/ContentView.swift:212-216 | one more discovery at the end of a run applies one more discovery update to the run's list |
| `ScanList.DiscoverAllKeepsPrefix` | CC/ContentView.swift:212-216 | a run of discoveries keeps the earlier list as a prefix, adds at most one entry per discovery, and keeps identifiers unique |
| `ScanList.DiscoverAllMembers` | CC/ContentView.swift:212-216 | after a run of discoveries every discovered identifier is listed, and every entry either was already listed or was discovered |
| `ScanList.DiscoverDuplicateExample` | CC/ContentView.swift:212-216 | discovering A, B and then another record with A's identifier yields exactly [A, B]: the first record seen is kept |
| `Gatt.CharacteristicRequests` | CC/ContentView.swift:244-250 | every request is a discovery of characteristic FFE1 for a reported service whose UUID is FFE0; every reported FFE0 service gets one; there is no request exactly when no FFE0 service is reported; at most as many requests as services |
| `Gatt.CharacteristicRequestsCount` | CC/ContentView.swift:246-250 | each service gets exactly as many FFE1 discovery requests as the number of times it is reported when its UUID is FFE0, and none otherwise |
| `Gatt.ResolveWriteCharacteristic` | CC/ContentView.swift:259-268 | with no FFE1 characteristic reported the write path is unchanged; otherwise it is the last reported FFE1 characteristic (no later entry is FFE1) |
| `Gatt.NotifyRequestsExact` | CC/ContentView.swift:261-267 | notifications are enabled only on reported FFE1 characteristics, on every one of them, at most as many requests as characteristics, and no request is issued exactly when none is reported |
| `Gatt.NotifyRequestsCount` | CC/ContentView.swift:261-267 | each characteristic gets exactly as many notification requests as the number of times it is reported when its UUID is FFE1, and none otherwise |
| `Gatt.NotifyMatchesWriteCharacteristic` | CC/ContentView.swift:261-267 | when any notification is requested, the last one is for the characteristic that becomes the write path |
| `Utf8.EncodeChar` | CC/ContentView.swift:181 | a character encodes to one to four bytes; exactly the ASCII characters give one byte, and only those give a leading byte below 0x80; continuation bytes are in 0x80-0xBF |
| `Utf8.Encode` | CC/ContentView.swift:181 | the payload has between one and four bytes per character and is empty exactly when the text is empty |
| `Utf8.EncodeAppend` | CC/ContentView.swift:181 | the encoding of a concatenation is the concatenation of the encodings |
| `Utf8.EncodeAscii` | CC/ContentView.swift:181 | ASCII text is written byte for byte, one byte per character |
| `Utf8.EncodeLengthAscii` | CC/ContentView.swift:181 | the payload has one byte per character exactly when the text is ASCII |
| `Scenarios.DisconnectThenSend` | CC/ContentView.swift:224-228 | after a disconnect callback, a send issues no radio request and keeps the pending text; the send path is empty |
| `Scenarios.ScanSession` | CC/ContentView.swift:142-216 | power on, scan, discover A, B, A: the list is [A, B], the manager is scanning, and the radio has seen exactly one filtered scan |
| `Scenarios.ConnectSession` | CC/ContentView.swift:166-269 | connecting to a peripheral that reports the FFE0 service and FFE1 characteristic, then sending, issues stop, connect, service discovery, characteristic discovery, notify and one unacknowledged write, in that order, and leaves the manager connected with the text cleared |
| `Scenarios.FullSession` | CC/ContentView.swift:142-269 | from a new manager: power on, scan, discover A, B and A again, connect to A, resolve FFE0/FFE1 and send; the list is [A, B], the manager is connected to A with the FFE1 characteristic and the text cleared, and the radio has seen exactly the filtered scan, stop, connect, service discovery, characteristic discovery, notify and one unacknowledged write, in that order |
| `Scenarios.DiscoverRun` | CC/ContentView.swift:212-216 | a run of discovery callbacks leaves the scan list as the run of discovery updates applied to the old list, changes no other field and issues no request |
| `Scenarios.SendAscii` | CC/ContentView.swift:178-187 | with the send path held and ASCII text pending, exactly one request is added: an unacknowledged write whose bytes are the text's characters one for one; the text is cleared |

## Left out

- The `ContentView` SwiftUI body (CC/ContentView.swift:12-117) and `#Preview` (285-287) are presentation only. The text field and the alert write `textToSend` and `showError` directly; in the model those are public fields a client may assign.
- CoreBluetooth types are replaced by the records in `Transport`. Calls into the radio are recorded in the ghost log and have no other effect. `peripheral.delegate = self` (line 168) is implicit: every callback reaches the one manager.
- The advertisement data and RSSI passed with a discovery (line 212) are not used by the code, so they are not parameters.
- `print` logging (lines 200, 266) and the inbound value callback (lines 271-282) are left out. That callback only prints and changes no state.
- The `@unknown default` case of the state callback (lines 207-208) covers central states added in future SDKs. The model's central state has only the six known values.
- `DispatchQueue.main.asyncAfter` (line 154) is left out as timing. It becomes the `ScanTimeout` event, which the model does not tie to an earlier `StartScan`. The code does not cancel these timers either.
- The `nil` result of `textToSend.data(using: .utf8)` (line 181) cannot occur, because every Dafny string encodes. A UTF-8 decoder, and any round trip through one, is not part of this model.
- A 16-bit UUID and its 128-bit Bluetooth-base form are not identified with each other. UUIDs compare by their bits only.
- Combine `@Published` observation and main-queue threading are left out. The model applies commands and callbacks one at a time.
- Drive mapping, command throttling, a motor wire format, a connection-state enumeration and a stop-on-ready write are not in CC/ContentView.swift, so none of them is modelled.
