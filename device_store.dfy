/**
 * The MAC registry, a key-value namespace shared by the portal and the
 * registration endpoint. A device is stored under its key: the MAC address
 * upper-cased with its colons removed. The value is the registration record.
 */
module DeviceStore {
  import opened Wrappers
  import opened Text

  /** The stored record: the upper-cased MAC as submitted and the registration time. */
  datatype DeviceRecord = DeviceRecord(mac: string, registered: string)

  /** The storage key of a MAC address: `toUpperCase()`, then every colon removed. */
  function MacKey(mac: string): (key: string)
    ensures |key| <= |mac| && ':' !in key
    ensures forall c :: c in key ==> !('a' <= c <= 'z')
  {
    var upper := ToUpper(mac);
    assert forall c :: c in upper ==> !('a' <= c <= 'z');
    RemoveColons(upper)
  }

  /**
   * The key holds every character of the upper-cased MAC except the colons,
   * as often as it occurs there; a MAC without colons keys to its upper-cased form.
   */
  lemma MacKeyKeepsOthers(mac: string)
    ensures multiset(MacKey(mac)) == multiset(ToUpper(mac))[':' := 0]
    ensures ':' !in mac ==> MacKey(mac) == ToUpper(mac)
  {
    RemoveColonsKeepsOthers(ToUpper(mac));
    if ':' !in mac {
      forall i | 0 <= i < |mac| ensures ToUpper(mac)[i] != ':' {
        assert mac[i] in mac;
      }
      RemoveColonsOfColonFree(ToUpper(mac));
    }
  }

  /** A key is its own key: normalising twice changes nothing. */
  lemma MacKeyIdempotent(mac: string)
    ensures MacKey(MacKey(mac)) == MacKey(mac)
  {
    var u := ToUpper(mac);
    UpperCommutesWithRemoveColons(u);
    ToUpperIdempotent(mac);
    RemoveColonsOfColonFree(RemoveColons(u));
  }

  /** Case and colons do not matter: a MAC and its upper-cased form have the same key. */
  lemma MacKeyIgnoresCase(mac: string)
    ensures MacKey(ToUpper(mac)) == MacKey(mac)
  {
    ToUpperIdempotent(mac);
  }

  /** The registry binding: a mutable map from keys to records. */
  class MacRegistry {
    var entries: map<string, DeviceRecord>

    constructor ()
      ensures entries == map[]
    {
      entries := map[];
    }

    /** `get`: the record under `key`, if any. */
    function Get(key: string): (r: Option<DeviceRecord>)
      reads this
      ensures r.Some? <==> key in entries
      ensures r.Some? ==> r.value == entries[key]
    {
      if key in entries then Some(entries[key]) else None
    }

    /** `put`: store `rec` under `key`, replacing what was there. */
    method Put(key: string, rec: DeviceRecord)
      modifies this
      ensures entries == old(entries)[key := rec]
    {
      entries := entries[key := rec];
    }
  }
}
