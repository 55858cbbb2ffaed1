/** The configuration as a value: its eleven members, the defaults the
    constructor gives them, the raw memory image `EEPROM.put` stores, and the
    "minimally configured" predicate. */
module ConfigRecord {
  import opened CTypes
  import opened CString

  /** Capacities of the `char[]` members, each including room for a NUL. */
  const SSID_SIZE: nat := 33
  const PSK_SIZE: nat := 65
  const HOSTNAME_SIZE: nat := 33
  const URL_SIZE: nat := 128
  const ORG_SIZE: nat := 32
  const TOKEN_SIZE: nat := 128
  const BUCKET_SIZE: nat := 32
  const LOCATION_SIZE: nat := 32

  /** Byte offsets of the members in the struct (no padding is needed: the
      `bool` sits at 131 and the 4-byte members start at 132). */
  const FAHRENHEIT_AT: nat := 131
  const PERIOD_AT: nat := 132
  const OFFSET_AT: nat := 136
  const URL_AT: nat := 140
  const CONFIG_SIZE: nat := 492

  /** The update period the constructor sets, in seconds. */
  const DEFAULT_UPDATE_PERIOD_S: u32 := 300

  /** The EEPROM marker "bme_280_1.0    ": 15 characters and the NUL. */
  const SENTINEL: seq<byte> :=
    [98, 109, 101, 95, 50, 56, 48, 95,
     49, 46, 48, 32, 32, 32, 32, NUL]
  /** The record's EEPROM position (non-zero, to spread wear away from byte 0). */
  const EEPROM_START: nat := 33

  /** The members of the configuration, in declaration order. */
  datatype Field =
    | Ssid | Psk | Hostname | Fahrenheit | UpdatePeriodS | TempOffsetC
    | Url | Org | Token | Bucket | Location
  {
    predicate IsText() { !(Fahrenheit? || UpdatePeriodS? || TempOffsetC?) }

    function Capacity(): nat
      requires IsText()
    {
      match this
      case Ssid => SSID_SIZE
      case Psk => PSK_SIZE
      case Hostname => HOSTNAME_SIZE
      case Url => URL_SIZE
      case Org => ORG_SIZE
      case Token => TOKEN_SIZE
      case Bucket => BUCKET_SIZE
      case Location => LOCATION_SIZE
    }
  }

  /** A configuration value. `tempOffsetC` is the bit pattern of the `float`;
      the model does no floating-point arithmetic on it. */
  datatype Record = Record(
    ssid: seq<byte>, psk: seq<byte>, hostname: seq<byte>,
    fahrenheit: bool, updatePeriodS: u32, tempOffsetC: u32,
    url: seq<byte>, org: seq<byte>, token: seq<byte>, bucket: seq<byte>, location: seq<byte>)
  {
    /** The buffer behind a text member. */
    function Text(f: Field): seq<byte>
      requires f.IsText()
    {
      match f
      case Ssid => ssid
      case Psk => psk
      case Hostname => hostname
      case Url => url
      case Org => org
      case Token => token
      case Bucket => bucket
      case Location => location
    }

    function WithText(f: Field, s: seq<byte>): (r: Record)
      requires f.IsText()
      ensures r.Text(f) == s
      ensures forall g :: g != f ==> Agree(this, r, g)
      ensures WellSized() && |s| == f.Capacity() ==> r.WellSized()
      ensures Terminated() && |s| == f.Capacity() && s[|s| - 1] == NUL ==> r.Terminated()
    {
      match f
      case Ssid => this.(ssid := s)
      case Psk => this.(psk := s)
      case Hostname => this.(hostname := s)
      case Url => this.(url := s)
      case Org => this.(org := s)
      case Token => this.(token := s)
      case Bucket => this.(bucket := s)
      case Location => this.(location := s)
    }

    /** Every text member has exactly its declared capacity. */
    predicate WellSized()
    {
      && |ssid| == SSID_SIZE && |psk| == PSK_SIZE && |hostname| == HOSTNAME_SIZE
      && |url| == URL_SIZE && |org| == ORG_SIZE && |token| == TOKEN_SIZE
      && |bucket| == BUCKET_SIZE && |location| == LOCATION_SIZE
    }

    /** Every text member is NUL-terminated within its capacity. */
    predicate Terminated()
    {
      && WellSized()
      && ssid[SSID_SIZE - 1] == NUL && psk[PSK_SIZE - 1] == NUL && hostname[HOSTNAME_SIZE - 1] == NUL
      && url[URL_SIZE - 1] == NUL && org[ORG_SIZE - 1] == NUL && token[TOKEN_SIZE - 1] == NUL
      && bucket[BUCKET_SIZE - 1] == NUL && location[LOCATION_SIZE - 1] == NUL
    }
  }

  /** A text member of a well-sized record has its declared capacity, and a
      terminated one has NUL in its last byte. */
  lemma TextSize(r: Record, f: Field)
    requires f.IsText()
    ensures r.WellSized() ==> |r.Text(f)| == f.Capacity()
    ensures r.Terminated() ==> r.Text(f)[f.Capacity() - 1] == NUL
  {
  }

  /** The two records hold the same value in member `g`. */
  predicate Agree(r: Record, r': Record, g: Field)
  {
    match g
    case Fahrenheit => r.fahrenheit == r'.fahrenheit
    case UpdatePeriodS => r.updatePeriodS == r'.updatePeriodS
    case TempOffsetC => r.tempOffsetC == r'.tempOffsetC
    case _ => r.Text(g) == r'.Text(g)
  }

  /** What `Config()` produces: every byte zero, then the update period 300. */
  function Default(): (r: Record)
    ensures r.Terminated()
    ensures r.updatePeriodS == DEFAULT_UPDATE_PERIOD_S && !r.fahrenheit && r.tempOffsetC == 0
    ensures forall f: Field | f.IsText() :: StrLen(r.Text(f)) == 0
  {
    assert forall n: nat :: StrLen(Zeros(n)) == 0;
    Record(Zeros(SSID_SIZE), Zeros(PSK_SIZE), Zeros(HOSTNAME_SIZE), false, DEFAULT_UPDATE_PERIOD_S, 0,
           Zeros(URL_SIZE), Zeros(ORG_SIZE), Zeros(TOKEN_SIZE), Zeros(BUCKET_SIZE), Zeros(LOCATION_SIZE))
  }

  /** The raw bytes of the struct in memory, as `EEPROM.put` writes them. */
  function Encode(r: Record): (bs: seq<byte>)
    requires r.WellSized()
    ensures |bs| == CONFIG_SIZE
  {
    r.ssid + r.psk + r.hostname + [if r.fahrenheit then 1 else 0]
      + LE32(r.updatePeriodS) + LE32(r.tempOffsetC)
      + r.url + r.org + r.token + r.bucket + r.location
  }

  /** The struct `EEPROM.get` fills from raw bytes. A `bool` byte other than 0
      or 1 has no defined meaning in C; it is read here as "non-zero". */
  function Decode(bs: seq<byte>): (r: Record)
    requires |bs| == CONFIG_SIZE
    ensures r.WellSized()
  {
    Record(bs[0..33], bs[33..98], bs[98..131], bs[131] != 0,
           FromLE32(bs[132..136]), FromLE32(bs[136..140]),
           bs[140..268], bs[268..300], bs[300..428], bs[428..460], bs[460..492])
  }

  /** Where each member sits in the image. */
  lemma EncodeLayout(r: Record)
    requires r.WellSized()
    ensures var bs := Encode(r);
      && bs[0..33] == r.ssid && bs[33..98] == r.psk && bs[98..131] == r.hostname
      && bs[131] == (if r.fahrenheit then 1 else 0)
      && bs[132..136] == LE32(r.updatePeriodS) && bs[136..140] == LE32(r.tempOffsetC)
      && bs[140..268] == r.url && bs[268..300] == r.org && bs[300..428] == r.token
      && bs[428..460] == r.bucket && bs[460..492] == r.location
  {
    var bs := Encode(r);
    var p, q := LE32(r.updatePeriodS), LE32(r.tempOffsetC);
    var front := r.ssid + r.psk + r.hostname + [if r.fahrenheit then 1 else 0] + p + q;
    var back := r.url + r.org + r.token + r.bucket + r.location;
    assert bs == front + back;
    assert bs[..140] == front && bs[140..] == back;
    assert front[0..33] == r.ssid && front[33..98] == r.psk && front[98..131] == r.hostname;
    assert front[132..136] == p && front[136..140] == q;
    assert back[0..128] == r.url && back[128..160] == r.org && back[160..288] == r.token;
    assert back[288..320] == r.bucket && back[320..352] == r.location;
  }

  /** Decoding the image of a record gives the record back. */
  lemma DecodeEncode(r: Record)
    requires r.WellSized()
    ensures Decode(Encode(r)) == r
  {
    EncodeLayout(r);
    FromLE32OfLE32(r.updatePeriodS);
    FromLE32OfLE32(r.tempOffsetC);
  }

  /** Every image whose `bool` byte is 0 or 1 is the image of its decoding. */
  lemma EncodeDecode(bs: seq<byte>)
    requires |bs| == CONFIG_SIZE && bs[FAHRENHEIT_AT] <= 1
    ensures Encode(Decode(bs)) == bs
  {
    LE32OfFromLE32(bs[132..136]);
    LE32OfFromLE32(bs[136..140]);
    assert bs == bs[0..33] + bs[33..98] + bs[98..131] + [bs[131]] + bs[132..136] + bs[136..140]
      + bs[140..268] + bs[268..300] + bs[300..428] + bs[428..460] + bs[460..492];
  }

  /** `minimallyConfigured()`: wifi credentials, hostname and URL set, a
      positive period, and InfluxDB token and bucket either both set (v2) or
      both empty (v1). */
  predicate MinimallyConfigured(r: Record)
  {
    var versionOneOrTheOther := (StrLen(r.token) > 0 && StrLen(r.bucket) > 0)
      || !(StrLen(r.token) > 0 || StrLen(r.bucket) > 0);
    StrLen(r.ssid) > 0 && StrLen(r.psk) > 0 && StrLen(r.hostname) > 0 && r.updatePeriodS > 0
      && StrLen(r.url) > 0 && versionOneOrTheOther
  }

  /** A text member is set when its first byte is not NUL. */
  predicate IsSet(s: seq<byte>) { |s| > 0 && s[0] != NUL }

  /** The predicate in terms of which members are set: `org` and `location`
      play no part, and token and bucket must be set together. */
  lemma MinimallyConfiguredIff(r: Record)
    ensures MinimallyConfigured(r) <==>
      && IsSet(r.ssid) && IsSet(r.psk) && IsSet(r.hostname) && IsSet(r.url)
      && r.updatePeriodS > 0
      && (IsSet(r.token) <==> IsSet(r.bucket))
  {
    StrLenPositive(r.ssid);
    StrLenPositive(r.psk);
    StrLenPositive(r.hostname);
    StrLenPositive(r.url);
    StrLenPositive(r.token);
    StrLenPositive(r.bucket);
  }

  /** A freshly constructed configuration is not minimally configured. */
  lemma DefaultNotMinimallyConfigured()
    ensures !MinimallyConfigured(Default())
  {
  }

  /** A token without a bucket (or the reverse) is never minimally configured. */
  lemma HalfInfluxV2NotConfigured(r: Record)
    requires IsSet(r.token) != IsSet(r.bucket)
    ensures !MinimallyConfigured(r)
  {
    MinimallyConfiguredIff(r);
  }
}
