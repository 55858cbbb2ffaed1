/** The persistent configuration as the object the firmware keeps: `char[]`
    buffers updated in place by `strncpy`, scalar members assigned by `edit`,
    the editing loop itself, and the EEPROM save and restore of the whole
    struct. Every operation is stated against the value model: `View()` is
    the record the object holds. */
module ConfigObject {
  import opened Wrappers
  import opened CTypes
  import opened CString
  import opened EepromStore
  import opened ConfigRecord
  import opened FieldEditor

  /** The EEPROM bytes the record and its marker occupy, from byte 0. */
  const EEPROM_EXTENT: nat := EEPROM_START + CONFIG_SIZE + |SENTINEL|

  class Config {
    const ssid: array<byte>
    const psk: array<byte>
    const hostname: array<byte>
    var fahrenheit: bool
    var updatePeriodS: u32
    var tempOffsetC: u32
    const url: array<byte>
    const org: array<byte>
    const token: array<byte>
    const bucket: array<byte>
    const location: array<byte>

    /** The text buffers. */
    ghost const Repr: set<object>

    /** The buffers have their declared capacities and are eight distinct
        arrays. */
    ghost predicate Valid()
    {
      && Repr == {ssid, psk, hostname, url, org, token, bucket, location}
      && ssid.Length == SSID_SIZE && psk.Length == PSK_SIZE && hostname.Length == HOSTNAME_SIZE
      && url.Length == URL_SIZE && org.Length == ORG_SIZE && token.Length == TOKEN_SIZE
      && bucket.Length == BUCKET_SIZE && location.Length == LOCATION_SIZE
      && ssid != psk && ssid != hostname && ssid != url && ssid != org
      && ssid != token && ssid != bucket && ssid != location
      && psk != hostname && psk != url && psk != org && psk != token
      && psk != bucket && psk != location
      && hostname != url && hostname != org && hostname != token
      && hostname != bucket && hostname != location
      && url != org && url != token && url != bucket && url != location
      && org != token && org != bucket && org != location
      && token != bucket && token != location
      && bucket != location
    }

    /** The configuration value the object holds. */
    function View(): (r: Record)
      reads this, ssid, psk, hostname, url, org, token, bucket, location
      ensures Valid() ==> r.WellSized()
    {
      Record(ssid[..], psk[..], hostname[..], fahrenheit, updatePeriodS, tempOffsetC,
             url[..], org[..], token[..], bucket[..], location[..])
    }

    /** `Config()`: every byte zero, then the period 300. */
    constructor ()
      ensures Valid() && fresh(Repr)
      ensures View() == Default()
    {
      var zeroedSsid := NewZeroed(SSID_SIZE);
      var zeroedPsk := NewZeroed(PSK_SIZE);
      var zeroedHostname := NewZeroed(HOSTNAME_SIZE);
      var zeroedUrl := NewZeroed(URL_SIZE);
      var zeroedOrg := NewZeroed(ORG_SIZE);
      var zeroedToken := NewZeroed(TOKEN_SIZE);
      var zeroedBucket := NewZeroed(BUCKET_SIZE);
      var zeroedLocation := NewZeroed(LOCATION_SIZE);
      ssid, psk, hostname := zeroedSsid, zeroedPsk, zeroedHostname;
      fahrenheit, updatePeriodS, tempOffsetC := false, DEFAULT_UPDATE_PERIOD_S, 0;
      url, org, token, bucket, location := zeroedUrl, zeroedOrg, zeroedToken, zeroedBucket, zeroedLocation;
      Repr := {zeroedSsid, zeroedPsk, zeroedHostname, zeroedUrl, zeroedOrg, zeroedToken, zeroedBucket, zeroedLocation};
    }

    /** The assignment `edit` makes once a name has resolved to `f`. */
    method Assign(f: Field, value: seq<byte>, toFloat: FloatParser)
      requires Valid()
      modifies this, Repr
      ensures Valid()
      ensures View() == SetField(old(View()), f, value, toFloat)
    {
      match f
      case TempOffsetC =>
        tempOffsetC := toFloat(value);
      case UpdatePeriodS =>
        var v := ToInt(value);
        if v > 0 {
          updatePeriodS := v as u32;
        }
      case Fahrenheit =>
        fahrenheit := Truthy(value);
      case _ =>
        AssignText(f, value);
    }

    /** The `strncpy` into text member `f`, of at most its capacity less one
        bytes. */
    method AssignText(f: Field, value: seq<byte>)
      requires Valid() && f.IsText()
      modifies Repr
      ensures Valid()
      ensures View() == old(View()).WithText(f, StrNCpy(old(View()).Text(f), value, f.Capacity() - 1))
    {
      match f
      case Ssid =>
        StrNCpyInto(ssid, value, SSID_SIZE - 1);
        assert View() == old(View()).(ssid := ssid[..]);
      case Psk =>
        StrNCpyInto(psk, value, PSK_SIZE - 1);
        assert View() == old(View()).(psk := psk[..]);
      case Hostname =>
        StrNCpyInto(hostname, value, HOSTNAME_SIZE - 1);
        assert View() == old(View()).(hostname := hostname[..]);
      case Url =>
        StrNCpyInto(url, value, URL_SIZE - 1);
        assert View() == old(View()).(url := url[..]);
      case Org =>
        StrNCpyInto(org, value, ORG_SIZE - 1);
        assert View() == old(View()).(org := org[..]);
      case Token =>
        StrNCpyInto(token, value, TOKEN_SIZE - 1);
        assert View() == old(View()).(token := token[..]);
      case Bucket =>
        StrNCpyInto(bucket, value, BUCKET_SIZE - 1);
        assert View() == old(View()).(bucket := bucket[..]);
      case Location =>
        StrNCpyInto(location, value, LOCATION_SIZE - 1);
        assert View() == old(View()).(location := location[..]);
    }

    /** `edit()`, over the raw lines the user types: each is trimmed as
        `getLineFromUser` does, and the method returns whether an accepted
        `!` ended the session and how many lines it read. The configuration
        ends as the session semantics `Run` says for the trimmed lines; on
        exit it is saved to EEPROM with the marker after it, and otherwise
        the EEPROM is untouched. */
    method Edit(raw: seq<seq<byte>>, eeprom: array<byte>, toFloat: FloatParser)
      returns (exited: bool, consumed: nat)
      requires Valid() && eeprom !in Repr && EEPROM_EXTENT <= eeprom.Length
      modifies this, Repr, eeprom
      ensures Valid()
      ensures Run(old(View()), TrimLines(raw), 0, toFloat) == Session(View(), exited, consumed)
      ensures exited ==> eeprom[..] == Stored(old(eeprom[..]), Encode(View()), SENTINEL, EEPROM_START)
      ensures !exited ==> eeprom[..] == old(eeprom[..])
    {
      ghost var lines := TrimLines(raw);
      var i := 0;
      while i < |raw|
        invariant 0 <= i <= |raw|
        invariant Valid()
        invariant Run(old(View()), lines, 0, toFloat) == Run(View(), lines, i, toFloat)
        invariant eeprom[..] == old(eeprom[..])
      {
        var line := GetLineFromUser(raw, i);
        if IsExitCommand(line) && MinimallyConfigured(View()) {
          RunStopsAtAcceptedExit(View(), lines, i, toFloat);
          SafeSave(eeprom, Encode(View()), SENTINEL, EEPROM_START);
          return true, i + 1;
        }
        RunContinues(View(), lines, i, toFloat);
        Apply(line, toFloat);
        i := i + 1;
      }
      return false, |raw|;
    }

    /** One pass of `edit`'s loop on a line that is not an accepted exit:
        skip a blank line, a comment or a line without `=`, and otherwise
        assign the value after the first `=` to the member the name before it
        designates, if any. */
    method Apply(line: seq<byte>, toFloat: FloatParser)
      requires Valid() && !(IsExitCommand(line) && MinimallyConfigured(View()))
      modifies this, Repr
      ensures Valid()
      ensures Step(old(View()), line, toFloat) == Continue(View())
    {
      if IsIgnored(line) {
        return;
      }
      var text := CStr(line);
      var equals := IndexOf(text, EQUALS);
      if equals == -1 {
        return;
      }
      var member := Resolve(text[..equals]);
      AssignResolves(View(), text[..equals], text[equals + 1..], toFloat);
      if member.Some? {
        Assign(member.value, text[equals + 1..], toFloat);
      }
    }

    /** Restoring the object from EEPROM: when the marker follows the record
        in EEPROM, the object takes the stored record; otherwise it is left
        as it was. */
    method RestoreFrom(eeprom: array<byte>) returns (found: bool)
      requires Valid() && eeprom !in Repr && EEPROM_EXTENT <= eeprom.Length
      modifies this, Repr
      ensures Valid()
      ensures found <==> SentinelFound(eeprom[..], SENTINEL, EEPROM_START, CONFIG_SIZE)
      ensures found ==> View() == Decode(eeprom[EEPROM_START..EEPROM_START + CONFIG_SIZE])
      ensures !found ==> View() == old(View())
    {
      var data;
      found, data := SafeRestore(eeprom, SENTINEL, EEPROM_START, CONFIG_SIZE);
      if found {
        Load(Decode(data));
      }
    }

    /** Copy a record's bytes into the object, as `EEPROM.get` copies the
        struct. */
    method Load(r: Record)
      requires Valid() && r.WellSized()
      modifies this, Repr
      ensures Valid()
      ensures View() == r
    {
      Overwrite(ssid, r.ssid);
      Overwrite(psk, r.psk);
      Overwrite(hostname, r.hostname);
      fahrenheit := r.fahrenheit;
      updatePeriodS := r.updatePeriodS;
      tempOffsetC := r.tempOffsetC;
      Overwrite(url, r.url);
      Overwrite(org, r.org);
      Overwrite(token, r.token);
      Overwrite(bucket, r.bucket);
      Overwrite(location, r.location);
    }
  }

  /** The bytes of one member copied from the struct image into its buffer. */
  method Overwrite(a: array<byte>, bytes: seq<byte>)
    requires |bytes| == a.Length
    modifies a
    ensures a[..] == bytes
  {
    Put(a, 0, bytes);
    assert a[..] == [] + bytes + [];
  }

  /** `getLineFromUser` on the `i`-th raw line: the line trimmed. */
  method GetLineFromUser(raw: seq<seq<byte>>, i: nat) returns (line: seq<byte>)
    requires i < |raw|
    ensures line == TrimLines(raw)[i]
  {
    line := Trim(raw[i]);
  }

  /** A fresh buffer of `n` zero bytes, as `memset` leaves it. */
  method NewZeroed(n: nat) returns (a: array<byte>)
    ensures fresh(a) && a[..] == Zeros(n)
  {
    a := new byte[n](_ => NUL);
  }

  /** A configuration saved to EEPROM is found by the next restore, and the
      restore gives it back unchanged. */
  lemma SavedConfigRestores(mem: seq<byte>, r: Record)
    requires r.WellSized() && EEPROM_EXTENT <= |mem|
    ensures var m := Stored(mem, Encode(r), SENTINEL, EEPROM_START);
      && SentinelFound(m, SENTINEL, EEPROM_START, CONFIG_SIZE)
      && Decode(m[EEPROM_START..EEPROM_START + CONFIG_SIZE]) == r
  {
    SaveThenRestore(mem, Encode(r), SENTINEL, EEPROM_START);
    DecodeEncode(r);
  }

  /** With the firmware's own marker: restore succeeds exactly when all 16
      bytes after the record are the marker's, so one wrong byte there makes
      it fail. */
  lemma RestoreNeedsExactMarker(mem: seq<byte>)
    requires EEPROM_EXTENT <= |mem|
    ensures SentinelFound(mem, SENTINEL, EEPROM_START, CONFIG_SIZE)
      <==> mem[EEPROM_START + CONFIG_SIZE..EEPROM_EXTENT] == SENTINEL
  {
    assert NoNul(SENTINEL[..|SENTINEL| - 1]);
    SentinelIntegrity(mem, SENTINEL, EEPROM_START, CONFIG_SIZE);
  }
}
