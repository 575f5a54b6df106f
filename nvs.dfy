/**
 * The non-volatile storage (NVS) library as the firmware uses it: string
 * values under short keys, grouped in named namespaces. Only the behaviour
 * visible through `nvs_open`, `nvs_set_str`, `nvs_commit` and `nvs_get_str`
 * is modelled; flash pages, wear levelling and encryption are not.
 */
module Nvs {
  import opened LibC

  /** The `esp_err_t` codes the core produces or observes. */
  datatype EspErr =
    | EspOk
    | EspFail                 // ESP_FAIL, returned by failing HTTP handlers
    | NvsNotFound             // ESP_ERR_NVS_NOT_FOUND: namespace or key never written
    | NvsInvalidLength        // ESP_ERR_NVS_INVALID_LENGTH: value does not fit the caller's buffer
    | NvsKeyTooLong           // ESP_ERR_NVS_KEY_TOO_LONG
    | NvsValueTooLong         // ESP_ERR_NVS_VALUE_TOO_LONG
    | NvsNotEnoughSpace       // ESP_ERR_NVS_NOT_ENOUGH_SPACE: the partition is full

  datatype Result<T> = Ok(value: T) | Err(error: EspErr)

  /** Longest key: NVS_KEY_NAME_MAX_SIZE (16) less the terminating NUL. */
  const KEY_MAX: nat := 15
  /** Largest string value in bytes, terminating NUL included. */
  const STR_MAX: nat := 4000

  /** The durable contents: namespace name to key to value. */
  type Namespaces = map<string, map<string, string>>

  /** The status `nvs_set_str` returns for this key and value. */
  function WriteStatus(key: string, value: string, full: bool): (e: EspErr)
    ensures e == EspOk <==> |key| <= KEY_MAX && |value| < STR_MAX && !full
    ensures e != EspOk ==> e == NvsKeyTooLong || e == NvsValueTooLong || e == NvsNotEnoughSpace
  {
    if |key| > KEY_MAX then NvsKeyTooLong
    else if |value| + 1 > STR_MAX then NvsValueTooLong
    else if full then NvsNotEnoughSpace
    else EspOk
  }

  /** The namespace's entries, empty if it was never created. */
  function Entries(spaces: Namespaces, ns: string): map<string, string> {
    if ns in spaces then spaces[ns] else map[]
  }

  /**
   * The durable contents after opening `ns` read-write, setting `key` to
   * `value` and committing: the write takes effect whole or not at all.
   */
  function Written(spaces: Namespaces, ns: string, key: string, value: string, full: bool): (r: Namespaces)
    ensures WriteStatus(key, value, full) == EspOk ==> ns in r && key in r[ns] && r[ns][key] == value
    ensures WriteStatus(key, value, full) != EspOk ==> r == spaces
    ensures forall n :: n in r && n != ns ==> n in spaces && r[n] == spaces[n]
    ensures forall k :: k in Entries(r, ns) && k != key ==> k in Entries(spaces, ns) && Entries(r, ns)[k] == Entries(spaces, ns)[k]
  {
    if WriteStatus(key, value, full) == EspOk then spaces[ns := Entries(spaces, ns)[key := value]]
    else spaces
  }

  /** What `nvs_get_str` yields for `key` in `ns` into a buffer of `cap` bytes. */
  function Read(spaces: Namespaces, ns: string, key: string, cap: nat): (r: Result<string>)
    ensures r.Ok? <==> key in Entries(spaces, ns) && |Entries(spaces, ns)[key]| < cap
    ensures r.Ok? ==> r.value == Entries(spaces, ns)[key]
    ensures r.Err? ==> (r.error == NvsNotFound <==> key !in Entries(spaces, ns))
    ensures r.Err? ==> r.error == NvsNotFound || r.error == NvsInvalidLength
  {
    if key !in Entries(spaces, ns) then Err(NvsNotFound)
    else if |Entries(spaces, ns)[key]| + 1 > cap then Err(NvsInvalidLength)
    else Ok(Entries(spaces, ns)[key])
  }

  /** A caller's buffer preset to `default` and then loaded: the loaded value or the preset. */
  function ReadOr(spaces: Namespaces, ns: string, key: string, cap: nat, default: string): (v: string)
    ensures Read(spaces, ns, key, cap).Ok? ==> |v| < cap
  {
    match Read(spaces, ns, key, cap)
    case Ok(v) => v
    case Err(_) => default
  }

  /** Reading back a key just written returns the written value, when it fits the buffer. */
  lemma ReadAfterWrite(spaces: Namespaces, ns: string, key: string, value: string, cap: nat)
    requires WriteStatus(key, value, false) == EspOk && |value| < cap
    ensures Read(Written(spaces, ns, key, value, false), ns, key, cap) == Ok(value)
  {
  }

  /** A write touches no other key of any namespace. */
  lemma ReadOtherAfterWrite(spaces: Namespaces, ns: string, key: string, value: string, full: bool,
                            ns': string, key': string, cap: nat)
    requires ns' != ns || key' != key
    ensures Read(Written(spaces, ns, key, value, full), ns', key', cap) == Read(spaces, ns', key', cap)
  {
  }

  /** A refused write leaves every value as it was. */
  lemma FailedWriteKeepsAll(spaces: Namespaces, ns: string, key: string, value: string, full: bool)
    requires WriteStatus(key, value, full) != EspOk
    ensures Written(spaces, ns, key, value, full) == spaces
  {
  }

  /**
   * The NVS partition: its durable contents, and whether it has run out of
   * free pages (a condition of the flash that no operation here changes).
   */
  class Store {
    var spaces: Namespaces
    var full: bool

    constructor (contents: Namespaces, isFull: bool)
      ensures spaces == contents && full == isFull
    {
      spaces := contents;
      full := isFull;
    }

    /** `nvs_open(ns, NVS_READWRITE)`, `nvs_set_str`, `nvs_commit` on success, `nvs_close`. */
    method SetStr(ns: string, key: string, value: string) returns (err: EspErr)
      modifies this`spaces
      ensures err == WriteStatus(key, value, full)
      ensures spaces == Written(old(spaces), ns, key, value, full)
    {
      err := WriteStatus(key, value, full);
      if err == EspOk {
        spaces := spaces[ns := Entries(spaces, ns)[key := value]];
      }
    }

    /**
     * `nvs_open(ns, NVS_READONLY)` and `nvs_get_str` into a buffer of `cap`
     * bytes: fails if the namespace or the key was never written, or if the
     * value and its NUL do not fit.
     */
    method GetStr(ns: string, key: string, cap: nat) returns (r: Result<string>)
      ensures r.Ok? <==> key in Entries(spaces, ns) && |Entries(spaces, ns)[key]| < cap
      ensures r.Ok? ==> r.value == spaces[ns][key] && |r.value| < cap
      ensures r.Err? ==> r.error == (if key in Entries(spaces, ns) then NvsInvalidLength else NvsNotFound)
      ensures r == Read(spaces, ns, key, cap)
    {
      if ns !in spaces {
        return Err(NvsNotFound);
      }
      var entries := spaces[ns];
      if key !in entries {
        return Err(NvsNotFound);
      }
      if |entries[key]| + 1 > cap {
        return Err(NvsInvalidLength);
      }
      r := Ok(entries[key]);
    }
  }
}
