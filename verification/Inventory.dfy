/** The file-backed device inventory, internal/authz/inventory.go. Reading and
    parsing the file are parameters. */
module Inventory {
  import opened Common
  import opened Names
  import opened Authz

  datatype DeviceEntry = DeviceEntry(
    cn: string, serial: string, fingerprint: string,
    allowedDNSNames: seq<string>, requireChallenge: bool, role: string)

  predicate HasMatchKey(d: DeviceEntry) {
    d.cn != "" || d.serial != "" || d.fingerprint != ""
  }

  /** The name the inventory matches: the authenticated one, else the requested one. */
  function InventoryName(id: Identity): string {
    if id.commonName == "" then id.requestedCN else id.commonName
  }

  predicate EntryMatches(d: DeviceEntry, id: Identity) {
    && (d.cn != "" ==> GlobMatch(d.cn, InventoryName(id)))
    && (d.serial != "" ==> EqualFold(d.serial, id.serial))
    && (d.fingerprint != "" ==> EqualFold(d.fingerprint, id.fingerprint))
  }

  function RecordOf(d: DeviceEntry): Record {
    Record(true, d.allowedDNSNames, d.requireChallenge, d.role)
  }

  const NOT_FOUND := Record(false, [], false, "")

  /** Each key the entry sets fits the device: the common name as a pattern, serial and
      fingerprint up to case. The name is the authenticated one, else the requested. */
  ghost predicate Describes(d: DeviceEntry, id: Identity) {
    && (d.cn == "" || GlobMatch(d.cn, if id.commonName != "" then id.commonName else id.requestedCN))
    && (d.serial == "" || SameUpToCase(d.serial, id.serial))
    && (d.fingerprint == "" || SameUpToCase(d.fingerprint, id.fingerprint))
  }

  /** `rec` is what the first entry describing `id` says, or that there is none. */
  ghost predicate IsFirstMatch(devices: seq<DeviceEntry>, id: Identity, rec: Record) {
    if exists d | d in devices :: Describes(d, id)
    then exists i | 0 <= i < |devices| ::
           && Describes(devices[i], id) && (forall j | 0 <= j < i :: !Describes(devices[j], id))
           && var d := devices[i]; rec == Record(true, d.allowedDNSNames, d.requireChallenge, d.role)
    else rec == Record(false, [], false, "")
  }

  lemma MatchesWhatItDescribes(d: DeviceEntry, id: Identity)
    ensures EntryMatches(d, id) <==> Describes(d, id)
  {
    FoldMeaning(d.serial, id.serial);
    FoldMeaning(d.fingerprint, id.fingerprint);
  }

  class FileInventory {
    var devices: seq<DeviceEntry>

    ghost predicate Valid() reads this {
      forall d | d in devices :: HasMatchKey(d)
    }

    /** NewFileInventory starts from a successful Reload. */
    constructor (parsed: seq<DeviceEntry>)
      requires forall d | d in parsed :: HasMatchKey(d)
      ensures Valid() && devices == parsed
    {
      devices := parsed;
    }

    /** Reload replaces the whole list, or on any error leaves it as it was: no
        entry without a match key is ever installed. */
    method Reload(file: Result<seq<DeviceEntry>, Failure>) returns (ok: bool)
      requires Valid()
      modifies this
      ensures Valid()
      ensures ok <==> file.Ok? && forall d | d in file.value :: d.cn != "" || d.serial != "" || d.fingerprint != ""
      ensures devices == if ok then file.value else old(devices)
    {
      if file.Err? {
        return false;
      }
      for i := 0 to |file.value|
        invariant devices == old(devices)
        invariant forall d | d in file.value[..i] :: HasMatchKey(d)
      {
        if !HasMatchKey(file.value[i]) {
          assert file.value[i] in file.value;
          return false;
        }
      }
      assert file.value[..|file.value|] == file.value;
      devices := file.value;
      return true;
    }

    method Lookup(id: Identity) returns (rec: Record)
      ensures IsFirstMatch(devices, id, rec)
    {
      hide GlobMatch, SameUpToCase, EntryMatches;
      for i := 0 to |devices|
        invariant forall j | 0 <= j < i :: !Describes(devices[j], id)
      {
        MatchesWhatItDescribes(devices[i], id);
        if EntryMatches(devices[i], id) {
          assert devices[i] in devices;
          return RecordOf(devices[i]);
        }
      }
      return NOT_FOUND;
    }
  }
}
