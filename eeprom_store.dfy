/** The sentinel-guarded persistent store: a record's raw bytes are written at
    a fixed EEPROM position and a fixed marker right after them; a record is
    read back only when the marker is found in place. */
module EepromStore {
  import opened CTypes
  import opened CString

  /** The storage contents after `data` is put at `posn` and `sentinel`
      directly after it. */
  function Stored(mem: seq<byte>, data: seq<byte>, sentinel: seq<byte>, posn: nat): (r: seq<byte>)
    requires posn + |data| + |sentinel| <= |mem|
    ensures |r| == |mem|
  {
    mem[..posn] + data + sentinel + mem[posn + |data| + |sentinel|..]
  }

  /** `strncmp` of the bytes found after a `size`-byte record at `posn` with
      `sentinel`, over the sentinel's length, returns 0. */
  predicate SentinelFound(mem: seq<byte>, sentinel: seq<byte>, posn: nat, size: nat)
    requires posn + size + |sentinel| <= |mem|
  {
    StrNCmpEq(mem[posn + size..posn + size + |sentinel|], sentinel, |sentinel|)
  }

  /** `EEPROM.put`: copy `bytes` into storage at `posn`, one cell at a time. */
  method Put(eeprom: array<byte>, posn: nat, bytes: seq<byte>)
    requires posn + |bytes| <= eeprom.Length
    modifies eeprom
    ensures eeprom[..] == old(eeprom[..])[..posn] + bytes + old(eeprom[..])[posn + |bytes|..]
  {
    var i := 0;
    while i < |bytes|
      invariant i <= |bytes|
      invariant eeprom[..posn] == old(eeprom[..])[..posn]
      invariant eeprom[posn..posn + i] == bytes[..i]
      invariant eeprom[posn + i..] == old(eeprom[..])[posn + i..]
    {
      eeprom[posn + i] := bytes[i];
      i := i + 1;
    }
    assert eeprom[..] == eeprom[..posn] + eeprom[posn..posn + |bytes|] + eeprom[posn + |bytes|..];
  }

  /** `safeSaveToEEPROM`: the record first, then the sentinel. The storage
      array stands for the buffer `EEPROM.begin` sizes to hold both. */
  method SafeSave(eeprom: array<byte>, data: seq<byte>, sentinel: seq<byte>, posn: nat)
    requires posn + |data| + |sentinel| <= eeprom.Length
    modifies eeprom
    ensures eeprom[..] == Stored(old(eeprom[..]), data, sentinel, posn)
  {
    Put(eeprom, posn, data);
    Put(eeprom, posn + |data|, sentinel);
  }

  /** `safeRestoreFromEEPROM`: read the candidate sentinel after the record,
      compare it with `strncmp`, and only on a match read the record. */
  method SafeRestore(eeprom: array<byte>, sentinel: seq<byte>, posn: nat, size: nat)
    returns (found: bool, data: seq<byte>)
    requires posn + size + |sentinel| <= eeprom.Length
    ensures found <==> SentinelFound(eeprom[..], sentinel, posn, size)
    ensures found ==> data == eeprom[posn..posn + size]
    ensures !found ==> data == []
  {
    var readSentinel := eeprom[posn + size..posn + size + |sentinel|];
    if !StrNCmpEq(readSentinel, sentinel, |sentinel|) {
      return false, [];
    }
    found, data := true, eeprom[posn..posn + size];
  }

  /** Save then restore: the marker is found and the record read back is the
      record saved, byte for byte. */
  lemma SaveThenRestore(mem: seq<byte>, data: seq<byte>, sentinel: seq<byte>, posn: nat)
    requires posn + |data| + |sentinel| <= |mem|
    ensures var m := Stored(mem, data, sentinel, posn);
      SentinelFound(m, sentinel, posn, |data|) && m[posn..posn + |data|] == data
  {
    var m := Stored(mem, data, sentinel, posn);
    assert m[posn + |data|..posn + |data| + |sentinel|] == sentinel;
    StrNCmpEqRefl(sentinel, |sentinel|);
  }

  /** For a marker whose only NUL is its last byte, restore succeeds exactly
      when every marker byte in storage is the expected one: a single wrong
      byte anywhere in the marker region makes restore report no data. */
  lemma SentinelIntegrity(mem: seq<byte>, sentinel: seq<byte>, posn: nat, size: nat)
    requires posn + size + |sentinel| <= |mem|
    requires |sentinel| > 0 && sentinel[|sentinel| - 1] == NUL && NoNul(sentinel[..|sentinel| - 1])
    ensures SentinelFound(mem, sentinel, posn, size) <==> mem[posn + size..posn + size + |sentinel|] == sentinel
  {
    var t := sentinel[..|sentinel| - 1];
    assert sentinel == t + [NUL];
    StrNCmpEqWithTerminatedConstant(mem[posn + size..posn + size + |sentinel|], t);
  }

  /** The storage after the first `k` bytes of a save (the record, then the
      sentinel) have been written and the rest have not. */
  function PartlySaved(mem: seq<byte>, data: seq<byte>, sentinel: seq<byte>, posn: nat, k: nat): (r: seq<byte>)
    requires posn + |data| + |sentinel| <= |mem| && k <= |data| + |sentinel|
    ensures |r| == |mem|
  {
    mem[..posn] + (data + sentinel)[..k] + mem[posn + k..]
  }

  /** A save that runs to the end writes what `Stored` says. */
  lemma CompleteSave(mem: seq<byte>, data: seq<byte>, sentinel: seq<byte>, posn: nat)
    requires posn + |data| + |sentinel| <= |mem|
    ensures PartlySaved(mem, data, sentinel, posn, |data| + |sentinel|) == Stored(mem, data, sentinel, posn)
  {
    assert (data + sentinel)[..|data| + |sentinel|] == data + sentinel;
  }

  /** A save cut short after `k` bytes. While the record is still being
      written the marker region is as before, so restore finds the marker
      exactly when it found it before the save. Hence, when no marker was in
      place before, a restore that succeeds after the cut reads the whole new
      record; when an earlier save's marker is still in place, restore
      accepts the partly written record. */
  lemma InterruptedSave(mem: seq<byte>, data: seq<byte>, sentinel: seq<byte>, posn: nat, k: nat)
    requires posn + |data| + |sentinel| <= |mem| && k <= |data| + |sentinel|
    ensures var m := PartlySaved(mem, data, sentinel, posn, k);
      && (k <= |data| ==> (SentinelFound(m, sentinel, posn, |data|) <==> SentinelFound(mem, sentinel, posn, |data|)))
      && (!SentinelFound(mem, sentinel, posn, |data|) && SentinelFound(m, sentinel, posn, |data|)
          ==> m[posn..posn + |data|] == data)
  {
    var m := PartlySaved(mem, data, sentinel, posn, k);
    var lo, hi := posn + |data|, posn + |data| + |sentinel|;
    if k <= |data| {
      assert m[lo..hi] == mem[lo..hi];
    } else {
      var w := (data + sentinel)[..k];
      assert w[..|data|] == data;
      assert m[posn..posn + |data|] == w[..|data|];
    }
  }

  /** Saving touches only the record's and the sentinel's cells. */
  lemma SaveFootprint(mem: seq<byte>, data: seq<byte>, sentinel: seq<byte>, posn: nat, i: nat)
    requires posn + |data| + |sentinel| <= |mem|
    requires i < |mem|
    ensures var m := Stored(mem, data, sentinel, posn);
      && (i < posn || posn + |data| + |sentinel| <= i ==> m[i] == mem[i])
      && (posn <= i < posn + |data| ==> m[i] == data[i - posn])
      && (posn + |data| <= i < posn + |data| + |sentinel| ==> m[i] == sentinel[i - posn - |data|])
  {
  }

  /** Saving the same record twice leaves the same storage as saving it once. */
  lemma SaveIdempotent(mem: seq<byte>, data: seq<byte>, sentinel: seq<byte>, posn: nat)
    requires posn + |data| + |sentinel| <= |mem|
    ensures Stored(Stored(mem, data, sentinel, posn), data, sentinel, posn) == Stored(mem, data, sentinel, posn)
  {
    var m := Stored(mem, data, sentinel, posn);
    var e := posn + |data| + |sentinel|;
    assert m[..posn] == mem[..posn];
    assert m[e..] == mem[e..];
  }
}
