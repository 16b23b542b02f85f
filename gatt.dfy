/**
 What the two discovery callbacks compute from the lists the radio reports:
 which services get a characteristic discovery, which characteristic becomes
 the write path, and on which characteristics notifications are enabled.
 */
module Gatt {
  import opened Transport

  /** The characteristic discovery requested for one service: FFE1 only. */
  function CharacteristicRequest(peripheral: Peripheral, service: Service): Request {
    DiscoverCharacteristics(peripheral, [HM10CharacteristicUuid], service)
  }

  /** The requests issued for `services`, in order: one per service whose UUID is FFE0. */
  function CharacteristicRequests(peripheral: Peripheral, services: seq<Service>): (r: seq<Request>)
    ensures |r| <= |services|
    ensures forall i :: 0 <= i < |r| ==>
      r[i].DiscoverCharacteristics? && r[i] == CharacteristicRequest(peripheral, r[i].service) &&
      r[i].service in services && r[i].service.uuid == HM10ServiceUuid
    ensures forall s :: s in services && s.uuid == HM10ServiceUuid ==> CharacteristicRequest(peripheral, s) in r
    ensures r == [] <==> forall s :: s in services ==> s.uuid != HM10ServiceUuid
  {
    if services == [] then []
    else
      var last := services[|services| - 1];
      var front := services[..|services| - 1];
      assert forall s :: s in services ==> s in front || s == last;
      CharacteristicRequests(peripheral, front)
        + (if last.uuid == HM10ServiceUuid then [CharacteristicRequest(peripheral, last)] else [])
  }

  /** Each reported FFE0 service gets exactly one request per time it is reported, and no other service gets any. */
  lemma {:induction false} CharacteristicRequestsCount(peripheral: Peripheral, services: seq<Service>, s: Service)
    ensures multiset(CharacteristicRequests(peripheral, services))[CharacteristicRequest(peripheral, s)] ==
      if s.uuid == HM10ServiceUuid then multiset(services)[s] else 0
  {
    if services != [] {
      var front := services[..|services| - 1];
      var last := services[|services| - 1];
      assert services == front + [last];
      CharacteristicRequestsCount(peripheral, front, s);
    }
  }

  /** The write characteristic after looking through `chars`, starting from `current`: the last FFE1 one wins. */
  function ResolveWriteCharacteristic(current: Option<Characteristic>, chars: seq<Characteristic>): (r: Option<Characteristic>)
    ensures (forall c :: c in chars ==> c.uuid != HM10CharacteristicUuid) ==> r == current
    ensures (exists c :: c in chars && c.uuid == HM10CharacteristicUuid) ==>
      exists k :: 0 <= k < |chars| && r == Some(chars[k]) && chars[k].uuid == HM10CharacteristicUuid &&
        forall j :: k < j < |chars| ==> chars[j].uuid != HM10CharacteristicUuid
  {
    if chars == [] then current
    else
      var last := chars[|chars| - 1];
      var front := chars[..|chars| - 1];
      assert forall c :: c in chars ==> c in front || c == last;
      if last.uuid == HM10CharacteristicUuid then Some(last)
      else
        var r := ResolveWriteCharacteristic(current, front);
        assert (exists c :: c in chars && c.uuid == HM10CharacteristicUuid) ==>
          exists c :: c in front && c.uuid == HM10CharacteristicUuid;
        r
  }

  /** The notification requests issued for `chars`, in order: one per FFE1 characteristic. */
  function NotifyRequests(peripheral: Peripheral, chars: seq<Characteristic>): seq<Request>
  {
    if chars == [] then []
    else
      var last := chars[|chars| - 1];
      var front := chars[..|chars| - 1];
      NotifyRequests(peripheral, front)
        + (if last.uuid == HM10CharacteristicUuid then [SetNotifyValue(peripheral, true, last)] else [])
  }

  /** Exactly the FFE1 characteristics get notifications enabled, at most one request per characteristic. */
  lemma {:induction false} NotifyRequestsExact(peripheral: Peripheral, chars: seq<Characteristic>)
    ensures |NotifyRequests(peripheral, chars)| <= |chars|
    ensures forall i :: 0 <= i < |NotifyRequests(peripheral, chars)| ==>
      var q := NotifyRequests(peripheral, chars)[i];
      q.SetNotifyValue? && q == SetNotifyValue(peripheral, true, q.characteristic) &&
      q.characteristic in chars && q.characteristic.uuid == HM10CharacteristicUuid
    ensures forall c :: c in chars && c.uuid == HM10CharacteristicUuid ==> SetNotifyValue(peripheral, true, c) in NotifyRequests(peripheral, chars)
    ensures NotifyRequests(peripheral, chars) == [] <==> forall c :: c in chars ==> c.uuid != HM10CharacteristicUuid
  {
    if chars != [] {
      var front := chars[..|chars| - 1];
      NotifyRequestsExact(peripheral, front);
      assert forall c :: c in chars ==> c in front || c == chars[|chars| - 1];
    }
  }

  /** Each reported FFE1 characteristic gets exactly one notification request per time it is reported, and no other any. */
  lemma {:induction false} NotifyRequestsCount(peripheral: Peripheral, chars: seq<Characteristic>, c: Characteristic)
    ensures multiset(NotifyRequests(peripheral, chars))[SetNotifyValue(peripheral, true, c)] ==
      if c.uuid == HM10CharacteristicUuid then multiset(chars)[c] else 0
  {
    if chars != [] {
      var front := chars[..|chars| - 1];
      var last := chars[|chars| - 1];
      assert chars == front + [last];
      NotifyRequestsCount(peripheral, front, c);
    }
  }

  /**
   Notifications end up enabled on the characteristic that becomes the write
   path: when any notification is requested, the last one names exactly the
   resolved characteristic.
   */
  lemma {:induction false} NotifyMatchesWriteCharacteristic(peripheral: Peripheral, current: Option<Characteristic>, chars: seq<Characteristic>)
    requires NotifyRequests(peripheral, chars) != []
    ensures ResolveWriteCharacteristic(current, chars).Some?
    ensures NotifyRequests(peripheral, chars)[|NotifyRequests(peripheral, chars)| - 1] ==
      SetNotifyValue(peripheral, true, ResolveWriteCharacteristic(current, chars).value)
  {
    var last := chars[|chars| - 1];
    var front := chars[..|chars| - 1];
    if last.uuid != HM10CharacteristicUuid {
      assert NotifyRequests(peripheral, chars) == NotifyRequests(peripheral, front);
      NotifyMatchesWriteCharacteristic(peripheral, current, front);
    }
  }

  /** One more characteristic looked at: how the write path and the notification requests grow. */
  lemma ResolveStep(peripheral: Peripheral, current: Option<Characteristic>, chars: seq<Characteristic>, i: nat)
    requires i < |chars|
    ensures ResolveWriteCharacteristic(current, chars[..i + 1]) ==
      if chars[i].uuid == HM10CharacteristicUuid then Some(chars[i]) else ResolveWriteCharacteristic(current, chars[..i])
    ensures NotifyRequests(peripheral, chars[..i + 1]) == NotifyRequests(peripheral, chars[..i]) +
      if chars[i].uuid == HM10CharacteristicUuid then [SetNotifyValue(peripheral, true, chars[i])] else []
  {
    assert chars[..i + 1][..i] == chars[..i];
  }
}
