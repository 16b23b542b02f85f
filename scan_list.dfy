/**
 The list of peripherals found during a scan: a peripheral is appended only
 when no entry already carries its identifier, so the list holds each
 identifier once, in the order first seen, and keeps the first record seen.
 */
module ScanList {
  import opened Transport

  /** Some entry of `devices` carries identifier `id`. */
  predicate ContainsIdentifier(devices: seq<Peripheral>, id: Uuid) {
    exists i :: 0 <= i < |devices| && devices[i].identifier == id
  }

  /** No two entries carry the same identifier. */
  predicate NoDuplicateIds(devices: seq<Peripheral>) {
    forall i, j :: 0 <= i < j < |devices| ==> devices[i].identifier != devices[j].identifier
  }

  /** The list after one discovery of `p`. */
  function WithDiscovered(devices: seq<Peripheral>, p: Peripheral): (r: seq<Peripheral>)
    ensures NoDuplicateIds(devices) ==> NoDuplicateIds(r)
    ensures |devices| <= |r| <= |devices| + 1
    ensures r[..|devices|] == devices
    ensures ContainsIdentifier(r, p.identifier)
    ensures |r| == |devices| + 1 <==> !ContainsIdentifier(devices, p.identifier)
    ensures |r| == |devices| + 1 ==> r[|devices|] == p
  {
    if ContainsIdentifier(devices, p.identifier) then devices
    else
      var r := devices + [p];
      assert r[|devices|].identifier == p.identifier;
      r
  }

  /** The list after discovering each of `ps` in turn, starting from `devices`. */
  function DiscoverAll(devices: seq<Peripheral>, ps: seq<Peripheral>): seq<Peripheral>
    decreases |ps|
  {
    if ps == [] then devices else DiscoverAll(WithDiscovered(devices, ps[0]), ps[1..])
  }

  /** One more discovery at the end of a run is one more discovery update. */
  lemma {:induction false} DiscoverAllSnoc(devices: seq<Peripheral>, ps: seq<Peripheral>, p: Peripheral)
    ensures DiscoverAll(devices, ps + [p]) == WithDiscovered(DiscoverAll(devices, ps), p)
    decreases |ps|
  {
    if ps == [] {
      assert [p][1..] == [];
    } else {
      assert (ps + [p])[1..] == ps[1..] + [p];
      DiscoverAllSnoc(WithDiscovered(devices, ps[0]), ps[1..], p);
    }
  }

  /** A run of discoveries keeps the earlier entries, in order, at the front, and adds no duplicate. */
  lemma {:induction false} DiscoverAllKeepsPrefix(devices: seq<Peripheral>, ps: seq<Peripheral>)
    ensures |devices| <= |DiscoverAll(devices, ps)| <= |devices| + |ps|
    ensures DiscoverAll(devices, ps)[..|devices|] == devices
    ensures NoDuplicateIds(devices) ==> NoDuplicateIds(DiscoverAll(devices, ps))
    decreases |ps|
  {
    if ps != [] {
      var next := WithDiscovered(devices, ps[0]);
      DiscoverAllKeepsPrefix(next, ps[1..]);
      var r := DiscoverAll(next, ps[1..]);
      assert r[..|devices|] == r[..|next|][..|devices|];
    }
  }

  /** After a run of discoveries every discovered identifier is listed, and every entry was discovered or already there. */
  lemma {:induction false} DiscoverAllMembers(devices: seq<Peripheral>, ps: seq<Peripheral>)
    ensures forall p :: p in ps ==> ContainsIdentifier(DiscoverAll(devices, ps), p.identifier)
    ensures forall d :: d in DiscoverAll(devices, ps) ==> d in devices || d in ps
    decreases |ps|
  {
    if ps != [] {
      var next := WithDiscovered(devices, ps[0]);
      DiscoverAllMembers(next, ps[1..]);
      var r := DiscoverAll(next, ps[1..]);
      DiscoverAllKeepsPrefix(next, ps[1..]);
      assert ContainsIdentifier(r, ps[0].identifier) by {
        var i :| 0 <= i < |next| && next[i].identifier == ps[0].identifier;
        assert r[..|next|][i] == r[i];
      }
      forall p | p in ps ensures ContainsIdentifier(r, p.identifier) {
        if p != ps[0] {
          assert p in ps[1..];
        }
      }
      forall d | d in r ensures d in devices || d in ps {
        if d in next && d !in devices {
          assert d == ps[0];
        } else if d in ps[1..] {
          assert d in ps;
        }
      }
    }
  }

  /** Discovering A, B and then A again (same identifier, any name) lists [A, B]. */
  lemma DiscoverDuplicateExample(a: Peripheral, b: Peripheral, a2: Peripheral)
    requires a.identifier != b.identifier && a2.identifier == a.identifier
    ensures DiscoverAll([], [a, b, a2]) == [a, b]
  {
    var s1 := WithDiscovered([], a);
    assert s1 == [a];
    var s2 := WithDiscovered(s1, b);
    assert s2 == [a, b];
    assert ContainsIdentifier(s2, a2.identifier) by { assert s2[0].identifier == a2.identifier; }
    assert WithDiscovered(s2, a2) == s2;
    calc {
      DiscoverAll([], [a, b, a2]);
      DiscoverAll(s1, [b, a2]);
      { assert [a, b, a2][1..] == [b, a2]; }
      DiscoverAll(s2, [a2]);
      { assert [b, a2][1..] == [a2]; }
      DiscoverAll(s2, []);
    }
  }
}
