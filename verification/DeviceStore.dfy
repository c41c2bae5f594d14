/** The store of paired devices (pairing.rs): finding a credential, inserting a device, removing one.

    Whether the file could be written is an input; the devices in memory change before it is. */
module DeviceStore {
  import opened Common

  datatype Credential = Credential(id: string, publicKey: seq<byte>, purpose: string, permissions: seq<string>)

  datatype Device = Device(name: string, identity: seq<byte>, credentials: seq<Credential>)

  type Devices = map<string, Device>

  datatype Outcome = Saved | Unsaved | Conflict | Unknown

  datatype Found = Found(owner: string, credential: Credential)

  predicate Owns(devices: Devices, owner: string, c: Credential) {
    owner in devices && c in devices[owner].credentials
  }

  predicate Names(credentials: seq<Credential>, id: string) {
    exists c :: c in credentials && c.id == id
  }

  /** No credential id stands twice, be it on one device or on two. */
  ghost predicate OneOwner(devices: Devices) {
    forall d, e, i, j ::
      (&& d in devices && e in devices
       && 0 <= i < |devices[d].credentials| && 0 <= j < |devices[e].credentials|
       && devices[d].credentials[i].id == devices[e].credentials[j].id)
      ==> d == e && i == j
  }

  ghost predicate Distinct(credentials: seq<Credential>) {
    forall i, j :: 0 <= i < j < |credentials| ==> credentials[i].id != credentials[j].id
  }

  /** The id is held by another device, or under another key. */
  predicate Clashes(devices: Devices, owner: string, c: Credential) {
    exists d :: d in devices && ClashesOn(devices[d].credentials, c, d != owner)
  }

  predicate ClashesOn(credentials: seq<Credential>, c: Credential, elsewhere: bool) {
    exists o :: o in credentials && o.id == c.id && (elsewhere || o.publicKey != c.publicKey)
  }

  predicate Conflicts(devices: Devices, owner: string, device: Device) {
    exists c :: c in device.credentials && Clashes(devices, owner, c)
  }

  /** The credentials that the incoming ones do not replace. */
  function Rest(existing: seq<Credential>, incoming: seq<Credential>): (r: seq<Credential>)
    ensures forall c :: c in r <==> c in existing && !Names(incoming, c.id)
  {
    if existing == [] then []
    else (if Names(incoming, existing[0].id) then [] else [existing[0]]) + Rest(existing[1..], incoming)
  }

  function Kept(devices: Devices, owner: string, incoming: seq<Credential>): seq<Credential> {
    if owner in devices then Rest(devices[owner].credentials, incoming) else []
  }

  /** The devices once this one is in: it replaces the record of the same id but for the credentials
      it does not bring. */
  function Inserted(devices: Devices, owner: string, device: Device): Devices {
    devices[owner := device.(credentials := device.credentials + Kept(devices, owner, device.credentials))]
  }

  /** The peer table that mirrors the devices. */
  function Identities(devices: Devices): map<string, seq<byte>> {
    map d | d in devices :: devices[d].identity
  }

  // ---- The store ----

  class PairingStore {
    var devices: Devices

    constructor ()
      ensures devices == map[]
    {
      devices := map[];
    }

    /** The first device, in whatever order, that has a credential of this id. */
    method FindCredential(id: string) returns (found: Option<Found>)
      ensures found.Some? ==>
        Owns(devices, found.value.owner, found.value.credential) && found.value.credential.id == id
      ensures found.None? ==> forall d :: d in devices ==> !Names(devices[d].credentials, id)
    {
      var left := devices.Keys;
      while left != {}
        invariant left <= devices.Keys
        invariant forall d :: d in devices && d !in left ==> !Names(devices[d].credentials, id)
        decreases |left|
      {
        var owner :| owner in left;
        var credentials := devices[owner].credentials;
        for i := 0 to |credentials|
          invariant forall j :: 0 <= j < i ==> credentials[j].id != id
        {
          if credentials[i].id == id {
            return Some(Found(owner, credentials[i]));
          }
        }
        left := left - {owner};
      }
      return None;
    }

    method Insert(owner: string, device: Device, saved: bool) returns (outcome: Outcome)
      requires OneOwner(devices)
      modifies this
      ensures outcome == if Conflicts(old(devices), owner, device) then Conflict else if saved then Saved else Unsaved
      ensures devices == if outcome.Conflict? then old(devices) else Inserted(old(devices), owner, device)
    {
      var incoming := device.credentials;
      for i := 0 to |incoming|
        invariant devices == old(devices)
        invariant forall j :: 0 <= j < i ==> !Clashes(devices, owner, incoming[j])
      {
        var found := FindCredential(incoming[i].id);
        if found.Some? {
          OnlyClash(devices, owner, incoming[i], found.value);
          if found.value.owner != owner || found.value.credential.publicKey != incoming[i].publicKey {
            return Conflict;
          }
        }
      }
      var kept := [];
      if owner in devices {
        kept := Rest(devices[owner].credentials, incoming);
      }
      devices := devices[owner := device.(credentials := incoming + kept)];
      outcome := if saved then Saved else Unsaved;
    }

    method Remove(owner: string, saved: bool) returns (outcome: Outcome)
      modifies this
      ensures outcome == if owner !in old(devices) then Unknown else if saved then Saved else Unsaved
      ensures devices == old(devices) - {owner}
    {
      if owner !in devices {
        assert devices - {owner} == devices;
        return Unknown;
      }
      devices := devices - {owner};
      outcome := if saved then Saved else Unsaved;
    }
  }

  // ---- What the store promises ----

  /** With one owner an id, any finding decides the clash. */
  lemma OnlyClash(devices: Devices, owner: string, c: Credential, found: Found)
    requires OneOwner(devices) && Owns(devices, found.owner, found.credential) && found.credential.id == c.id
    ensures Clashes(devices, owner, c) <==> found.owner != owner || found.credential.publicKey != c.publicKey
  {
    forall d, o | Owns(devices, d, o) && o.id == c.id
      ensures d == found.owner && o == found.credential
    {
      var i :| 0 <= i < |devices[d].credentials| && devices[d].credentials[i] == o;
      var j :| 0 <= j < |devices[found.owner].credentials|
               && devices[found.owner].credentials[j] == found.credential;
    }
    if Clashes(devices, owner, c) {
      var d :| d in devices && ClashesOn(devices[d].credentials, c, d != owner);
      var o :| o in devices[d].credentials && o.id == c.id && (d != owner || o.publicKey != c.publicKey);
      assert Owns(devices, d, o);
    }
  }

  lemma {:induction false} RestIsDistinct(existing: seq<Credential>, incoming: seq<Credential>)
    requires Distinct(existing) && Distinct(incoming)
    ensures Distinct(incoming + Rest(existing, incoming))
  {
    if existing != [] {
      RestIsDistinct(existing[1..], incoming);
      var rest, more := Rest(existing[1..], incoming), Rest(existing, incoming);
      if !Names(incoming, existing[0].id) {
        assert incoming + more == incoming + [existing[0]] + rest;
        forall i | 0 <= i < |rest| ensures rest[i].id != existing[0].id {
          assert rest[i] in existing[1..];
        }
        DistinctInsert(incoming, existing[0], rest);
      } else {
        assert more == rest;
      }
    } else {
      assert incoming + [] == incoming;
    }
  }

  lemma DistinctInsert(a: seq<Credential>, c: Credential, b: seq<Credential>)
    requires Distinct(a + b) && (forall i :: 0 <= i < |b| ==> b[i].id != c.id) && !Names(a, c.id)
    ensures Distinct(a + [c] + b)
  {
    var with, without := a + [c] + b, a + b;
    forall i, j | 0 <= i < j < |with| ensures with[i].id != with[j].id {
      if i == |a| {
        assert with[j] == b[j - |a| - 1];
      } else if j == |a| {
        assert with[i] == a[i] && a[i] in a;
      } else {
        assert with[i] == without[if i < |a| then i else i - 1] && with[j] == without[if j < |a| then j else j - 1];
      }
    }
  }

  /** What an insertion that is not refused leaves: the incoming credentials on this device, every
      other credential where it was, and no id twice. */
  lemma {:induction false} InsertMerges(devices: Devices, owner: string, device: Device)
    requires OneOwner(devices) && Distinct(device.credentials) && !Conflicts(devices, owner, device)
    ensures OneOwner(Inserted(devices, owner, device))
    ensures forall d, c :: Owns(Inserted(devices, owner, device), d, c) <==>
      (d == owner && c in device.credentials) || (Owns(devices, d, c) && !Names(device.credentials, c.id))
  {
    hide Rest;
    var after, incoming := Inserted(devices, owner, device), device.credentials;
    OwnersAfter(devices, owner, device);
    StaysDistinct(devices, owner, device);
    forall d, e, i, j | d in after && e in after
      && 0 <= i < |after[d].credentials| && 0 <= j < |after[e].credentials|
      && after[d].credentials[i].id == after[e].credentials[j].id
      ensures d == e && i == j
    {
      if d == owner && e == owner {
        assert Distinct(after[owner].credentials);
      } else if d == owner {
        BesideOwner(devices, owner, device, after[d].credentials[i], e, j);
      } else if e == owner {
        BesideOwner(devices, owner, device, after[e].credentials[j], d, i);
      }
    }
  }

  lemma OwnersAfter(devices: Devices, owner: string, device: Device)
    ensures forall d, c :: Owns(Inserted(devices, owner, device), d, c) <==>
      if d == owner then c in device.credentials || (Owns(devices, d, c) && !Names(device.credentials, c.id))
      else Owns(devices, d, c)
  {
  }

  lemma StaysDistinct(devices: Devices, owner: string, device: Device)
    requires OneOwner(devices) && Distinct(device.credentials)
    ensures Distinct(Inserted(devices, owner, device)[owner].credentials)
  {
    hide Rest;
    if owner in devices {
      RestIsDistinct(devices[owner].credentials, device.credentials);
    } else {
      assert device.credentials + [] == device.credentials;
    }
  }

  /** A credential of the device that came in shares no id with one of another device. */
  lemma BesideOwner(devices: Devices, owner: string, device: Device, c: Credential, d: string, j: nat)
    requires OneOwner(devices) && !Conflicts(devices, owner, device) && d in devices && d != owner
    requires Owns(Inserted(devices, owner, device), owner, c) && j < |devices[d].credentials|
    ensures c.id != devices[d].credentials[j].id
  {
    hide Rest;
    var o := devices[d].credentials[j];
    OwnersAfter(devices, owner, device);
    assert o in devices[d].credentials;
    if c !in device.credentials {
      assert Owns(devices, owner, c);
    }
  }

  /** Removing a device takes its credentials and no other. */
  lemma RemoveTakesOwn(devices: Devices, owner: string)
    requires OneOwner(devices)
    ensures OneOwner(devices - {owner})
    ensures forall d, c :: Owns(devices - {owner}, d, c) <==> Owns(devices, d, c) && d != owner
  {
  }
}
