/**
  The devices of the container and the name-keyed upsert of `add_devices`.
 */
module Devices {
  import opened Values

  /** The device defaults of `add_devices`. */
  const DeviceDefaults: Fields := map["name" := "Device", "description" := "Ecephys probe."]

  /** The name under which a device entry is looked up and created. */
  function DeviceName(dev: Fields): string {
    Get(dev, "name", "Device")
  }

  /** The container's devices: the keyword arguments each was created with, by name, and the
      names in creation order (the container's device dictionary keeps insertion order). */
  datatype Registry = Registry(byName: map<string, Fields>, order: seq<string>) {
    ghost predicate Valid() {
      Distinct(order) && forall n :: n in byName <==> n in order
    }
  }

  /** One entry of the loop of `add_devices`: a device named by the entry is created from the
      defaults overridden by the entry's keys, unless one with that name exists. */
  function WithDevice(reg: Registry, dev: Fields): Registry {
    var name := DeviceName(dev);
    if name in reg.byName then reg else Registry(reg.byName[name := DeviceDefaults + dev], reg.order + [name])
  }

  /** The loop of `add_devices`: an entry whose name is absent creates a device from the
      defaults overridden by the entry's keys; an entry whose name is present changes nothing.
      Afterwards every entry's name is present, and the devices that were there before are
      still there, unchanged and in their old order. */
  function CreateMissing(reg: Registry, entries: seq<Fields>): (r: Registry)
    requires reg.Valid()
    ensures r.Valid()
    ensures forall n :: n in r.byName <==> n in reg.byName || exists e :: e in entries && DeviceName(e) == n
    ensures |reg.order| <= |r.order| && r.order[..|reg.order|] == reg.order
    ensures forall n :: n in reg.byName ==> r.byName[n] == reg.byName[n]
    decreases |entries|
  {
    if entries == [] then reg
    else
      var init := entries[..|entries| - 1];
      var dev := entries[|entries| - 1];
      var prev := CreateMissing(reg, init);
      assert forall e :: e in entries <==> e in init || e == dev;
      var r := WithDevice(prev, dev);
      assert r.order[..|reg.order|] == prev.order[..|reg.order|];
      r
  }

  /** One more entry of the loop: it creates its device exactly when the name is absent. */
  lemma CreateMissingStep(reg: Registry, entries: seq<Fields>, i: nat)
    requires reg.Valid() && i < |entries|
    ensures CreateMissing(reg, entries[..i + 1]) == WithDevice(CreateMissing(reg, entries[..i]), entries[i])
  {
    assert entries[..i + 1][..i] == entries[..i];
  }

  /** The first entry of `entries` that has the name `n`. */
  ghost predicate FirstNamed(entries: seq<Fields>, k: nat, n: string) {
    k < |entries| && DeviceName(entries[k]) == n
    && forall k' :: 0 <= k' < k ==> DeviceName(entries[k']) != n
  }

  /** A device that `add_devices` creates holds the defaults overridden by the keys of the
      first entry with its name. */
  lemma {:induction false} CreateMissingFields(reg: Registry, entries: seq<Fields>, n: string, k: nat)
    requires reg.Valid() && n !in reg.byName && FirstNamed(entries, k, n)
    ensures n in CreateMissing(reg, entries).byName
    ensures CreateMissing(reg, entries).byName[n] == DeviceDefaults + entries[k]
    decreases |entries|
  {
    var last := |entries| - 1;
    var init := entries[..last];
    var prev := CreateMissing(reg, init);
    var r := CreateMissing(reg, entries);
    assert r == WithDevice(prev, entries[last]);
    if k < last {
      assert init[k] == entries[k];
      assert FirstNamed(init, k, n);
      CreateMissingFields(reg, init, n, k);
      var added := DeviceName(entries[last]);
      if added !in prev.byName {
        assert added != n && r.byName == prev.byName[added := DeviceDefaults + entries[last]];
      }
      assert r.byName[n] == prev.byName[n];
    } else {
      assert forall k' :: 0 <= k' < last ==> init[k'] == entries[k'];
      NoneNamed(init, n);
      assert r.byName == prev.byName[n := DeviceDefaults + entries[last]];
    }
  }

  /** No entry of `s` has the name `n`, stated over positions and over members. */
  lemma NoneNamed(s: seq<Fields>, n: string)
    requires forall k :: 0 <= k < |s| ==> DeviceName(s[k]) != n
    ensures forall e :: e in s ==> DeviceName(e) != n
  {
  }
}
