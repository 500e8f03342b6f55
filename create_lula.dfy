/**
  The "Locally Assigned Global ID" generator of createLULA.py: an RFC 4193
  (section 3.2.2) local IPv6 /48 prefix made from an NTP-style timestamp,
  an EUI-64 identifier derived from MAC text, and the SHA-1 digest of the
  two. The clock reading, the MAC text and SHA-1 itself come in as inputs.
*/
module CreateLula {
  import opened Results
  import opened Bytes
  import opened Strings

  /** Seconds from 1900-01-01, where NTP time starts, to the Unix epoch. */
  const TIME1970: nat := 2208988800

  /** One more than the largest value of the `struct` format code `L`. */
  const UINT32_LIMIT: nat := 0x1_0000_0000

  /** The nine digits after the point of `'%.9f' % t`, read as an integer. */
  type Fraction = f: nat | f < 1_000_000_000

  /**
    A clock reading as the source splits it: the whole Unix seconds and the
    nine-digit decimal fraction.
  */
  datatype TimeOfDay = TimeOfDay(unixSeconds: int, fraction: Fraction)

  /** A SHA-1 digest: 160 bits. */
  type Digest = d: seq<byte> | |d| == 20
    witness [0, 0, 0, 0, 0, 0, 0, 0, 0, 0, 0, 0, 0, 0, 0, 0, 0, 0, 0, 0]

  datatype LulaError =
    | StructError                 // struct.pack('>LL', ...) given a field outside 0 .. 2^32 - 1 (Python 2.7 on)
    | NotHex(part: string)        // int(part, 16) raises ValueError
    | ChrOutOfRange(value: nat)   // chr(value) raises ValueError or OverflowError above 255
    | LengthAssertion(bits: nat)  // `assert len(eui64) * 8 == 64` fails

  /** The number of seconds in 70 years of 365 days plus the 17 leap days 1904, 1908, ..., 1968. */
  lemma Time1970IsSeventyYears()
    ensures TIME1970 == (70 * 365 + 17) * 86400
  {
  }

  // ---------------------------------------------------------------- step 1

  /** The two big-endian fields of an 8-octet `'>LL'` record. */
  function UnpackLL(bs: seq<byte>): (fields: (nat, nat))
    requires |bs| == 8
    ensures fields.0 < UINT32_LIMIT && fields.1 < UINT32_LIMIT
  {
    Pow256Four();
    (FromBigEndian(bs[..4]), FromBigEndian(bs[4..]))
  }

  /** `struct.pack('>LL', a, b)`, which raises `struct.error` for a field that is not an unsigned 32-bit value. */
  function PackLL(a: int, b: int): (r: Result<seq<byte>, LulaError>)
    ensures r.Ok? <==> 0 <= a < UINT32_LIMIT && 0 <= b < UINT32_LIMIT
    ensures r.Ok? ==> |r.value| == 8 && UnpackLL(r.value) == (a, b)
  {
    if 0 <= a < UINT32_LIMIT && 0 <= b < UINT32_LIMIT then
      var bs := ToBigEndian(a, 4) + ToBigEndian(b, 4);
      Pow256Four();
      FromToBigEndian(a, 4);
      FromToBigEndian(b, 4);
      assert bs[..4] == ToBigEndian(a, 4) && bs[4..] == ToBigEndian(b, 4);
      Ok(bs)
    else
      Err(StructError)
  }

  /** Every 8-octet record is what `'>LL'` packs from its own two fields. */
  lemma PackUnpackLL(bs: seq<byte>)
    requires |bs| == 8
    ensures PackLL(UnpackLL(bs).0, UnpackLL(bs).1) == Ok(bs)
  {
    ToFromBigEndian(bs[..4]);
    ToFromBigEndian(bs[4..]);
    assert bs == bs[..4] + bs[4..];
  }

  /**
    `_get_time_ntpformat` after the clock is read: seconds since 1900 and the
    decimal fraction, packed as two big-endian 32-bit fields. The fraction is
    below 10^9 and so always fits; only the seconds can make the pack fail.
  */
  function NtpTimestamp(t: TimeOfDay): (r: Result<seq<byte>, LulaError>)
    ensures r.Ok? <==> 0 <= t.unixSeconds + TIME1970 < UINT32_LIMIT
    ensures r.Ok? ==> |r.value| == 8 && UnpackLL(r.value) == (t.unixSeconds + TIME1970, t.fraction)
  {
    PackLL(t.unixSeconds + TIME1970, t.fraction)
  }

  /** Distinct clock readings give distinct timestamps. */
  lemma NtpTimestampInjective(t1: TimeOfDay, t2: TimeOfDay)
    requires NtpTimestamp(t1).Ok? && NtpTimestamp(t1) == NtpTimestamp(t2)
    ensures t1 == t2
  {
  }

  // ---------------------------------------------------------------- step 2

  predicate IsHexDigit(c: char)
  {
    '0' <= c <= '9' || 'a' <= c <= 'f' || 'A' <= c <= 'F'
  }

  function HexDigitValue(c: char): (v: nat)
    requires IsHexDigit(c)
    ensures v < 16
  {
    if '0' <= c <= '9' then c as nat - '0' as nat
    else if 'a' <= c <= 'f' then c as nat - 'a' as nat + 10
    else c as nat - 'A' as nat + 10
  }

  predicate IsHexText(s: string)
  {
    s != [] && forall i | 0 <= i < |s| :: IsHexDigit(s[i])
  }

  /** The value of a string of hexadecimal digits, most significant first. */
  function HexValue(s: string): nat
    requires forall i | 0 <= i < |s| :: IsHexDigit(s[i])
  {
    if s == [] then 0 else HexValue(s[..|s| - 1]) * 16 + HexDigitValue(s[|s| - 1])
  }

  /** `chr(int(part, 16))`: one octet of the identifier. */
  function ParseOctet(part: string): Result<byte, LulaError>
  {
    if !IsHexText(part) then Err(NotHex(part))
    else if HexValue(part) >= 256 then Err(ChrOutOfRange(HexValue(part)))
    else Ok(HexValue(part))
  }

  /** `map(lambda x: chr(int(x, 16)), mac)`, which stops at the first part that raises. */
  function ParseOctets(parts: seq<string>): (r: Result<seq<byte>, LulaError>)
    ensures r.Ok? ==> |r.value| == |parts|
    decreases |parts|
  {
    if parts == [] then Ok([])
    else
      match ParseOctet(parts[0])
      case Err(e) => Err(e)
      case Ok(b) =>
        match ParseOctets(parts[1..])
        case Err(e) => Err(e)
        case Ok(bs) => Ok([b] + bs)
  }

  /** Every part is the text of one octet. */
  predicate AllOctets(parts: seq<string>)
  {
    forall i | 0 <= i < |parts| :: ParseOctet(parts[i]).Ok?
  }

  /** The conversion succeeds exactly when every part converts, and then gives each part's octet. */
  lemma {:induction false} ParseOctetsSpec(parts: seq<string>)
    ensures ParseOctets(parts).Ok? <==> AllOctets(parts)
    ensures ParseOctets(parts).Ok? ==>
      forall i | 0 <= i < |parts| :: ParseOctets(parts).value[i] == ParseOctet(parts[i]).value
    decreases |parts|
  {
    if parts != [] {
      ParseOctetsSpec(parts[1..]);
      assert forall i | 1 <= i < |parts| :: parts[1..][i - 1] == parts[i];
    }
  }

  /**
    The slice assignment `xs[3:3] = ins`: `ins` goes in after the third
    element, or at the end when there are fewer than three.
  */
  function InsertAfterThird<T>(xs: seq<T>, ins: seq<T>): (r: seq<T>)
    ensures |r| == |xs| + |ins|
  {
    var k := if |xs| < 3 then |xs| else 3;
    xs[..k] + ins + xs[k..]
  }

  lemma HexValueOfTwo(s: string)
    requires |s| == 2 && IsHexDigit(s[0]) && IsHexDigit(s[1])
    ensures HexValue(s) == HexDigitValue(s[0]) * 16 + HexDigitValue(s[1])
  {
    var first := s[..1];
    assert first[..|first| - 1] == [];
    assert HexValue(first) == HexDigitValue(s[0]);
    assert s[..|s| - 1] == first;
  }

  /** The two inserted texts convert to FF and FE. */
  lemma ParseFffe()
    ensures ParseOctets(["ff", "fe"]).Ok? && ParseOctets(["ff", "fe"]).value == [0xFF, 0xFE]
  {
    HexValueOfTwo("ff");
    HexValueOfTwo("fe");
    assert ParseOctet("ff") == Ok(0xFF) && ParseOctet("fe") == Ok(0xFE);
    assert ["fe"][0] == "fe" && ["fe"][1..] == [];
    assert ["ff", "fe"][0] == "ff" && ["ff", "fe"][1..] == ["fe"];
  }

  /** Two runs of parts convert together exactly when each does, and give the two runs of octets. */
  lemma {:induction false} ParseOctetsAppend(a: seq<string>, b: seq<string>)
    ensures ParseOctets(a + b).Ok? <==> ParseOctets(a).Ok? && ParseOctets(b).Ok?
    ensures ParseOctets(a + b).Ok? ==> ParseOctets(a + b).value == ParseOctets(a).value + ParseOctets(b).value
    decreases |a|
  {
    if a == [] {
      assert a + b == b;
    } else {
      var ab := a + b;
      assert ab[0] == a[0] && ab[1..] == a[1..] + b;
      ParseOctetsAppend(a[1..], b);
      if ParseOctet(a[0]).Ok? && ParseOctets(ab).Ok? {
        var b0, rest := ParseOctet(a[0]).value, ParseOctets(a[1..]).value;
        assert ParseOctets(a).value == [b0] + rest;
        assert ParseOctets(ab).value == [b0] + (rest + ParseOctets(b).value);
      }
    }
  }

  /** Inserting FF FE's texts and then converting is converting and then inserting FF FE. */
  lemma ParseInsertFffe(parts: seq<string>)
    ensures ParseOctets(InsertAfterThird(parts, ["ff", "fe"])).Ok? <==> ParseOctets(parts).Ok?
    ensures ParseOctets(parts).Ok? ==>
      ParseOctets(InsertAfterThird(parts, ["ff", "fe"])).value == InsertAfterThird(ParseOctets(parts).value, [0xFF, 0xFE])
  {
    var k := if |parts| < 3 then |parts| else 3;
    var front, back, fffe := parts[..k], parts[k..], ["ff", "fe"];
    assert parts == front + back;
    assert InsertAfterThird(parts, fffe) == (front + fffe) + back;
    ParseFffe();
    ParseOctetsAppend(front, back);
    ParseOctetsAppend(front, fffe);
    ParseOctetsAppend(front + fffe, back);
    if ParseOctets(parts).Ok? {
      var f, b := ParseOctets(front).value, ParseOctets(back).value;
      var v := f + b;
      assert |f| == k;
      assert v[..k] == f && v[k..] == b;
    }
  }

  /**
    `_get_EUI64` after the MAC text is found: split at ':', insert FF FE
    after the third octet, convert each part. Nothing else is changed; in
    particular the universal/local bit is not flipped. The length is not
    checked here: that is the assertion of `calc_LAGID`.
  */
  function Eui64FromMac(macText: string): (r: Result<seq<byte>, LulaError>)
    ensures var parts := Split(macText, ":");
      && (r.Ok? <==> AllOctets(parts))
      && (r.Ok? ==>
            && |r.value| == |parts| + 2
            && ParseOctets(parts).Ok?
            && r.value == InsertAfterThird(ParseOctets(parts).value, [0xFF, 0xFE]))
  {
    var parts := Split(macText, ":");
    var r := ParseOctets(InsertAfterThird(parts, ["ff", "fe"]));
    ParseInsertFffe(parts);
    ParseOctetsSpec(parts);
    r
  }

  /** The lower-case hexadecimal digit for `d`. */
  function HexDigitChar(d: nat): (c: char)
    requires d < 16
    ensures IsHexDigit(c) && HexDigitValue(c) == d
  {
    if d < 10 then ('0' as int + d) as char else ('a' as int + d - 10) as char
  }

  /** Two lower-case hexadecimal digits, as `ip` shows one octet of a link address. */
  function HexOctetText(b: byte): (s: string)
    ensures ParseOctet(s) == Ok(b)
  {
    var s := [HexDigitChar(b / 16), HexDigitChar(b % 16)];
    HexValueOfTwo(s);
    s
  }

  lemma OctetHasNoColon(part: string)
    requires ParseOctet(part).Ok?
    ensures forall j | 0 <= j < |part| :: part[j] != ':'
  {
    assert IsHexText(part);
  }

  /** The identifier of any MAC text made of six octet texts separated by ':'. */
  lemma Eui64OfOctetTexts(octets: seq<string>)
    requires |octets| == 6
    requires AllOctets(octets)
    ensures ParseOctets(octets).Ok?
    ensures var r := Eui64FromMac(Join(octets, ":"));
      r.Ok? && r.value == ParseOctets(octets).value[..3] + [0xFF, 0xFE] + ParseOctets(octets).value[3..]
  {
    assert Separable(octets, ":") by {
      forall i | 0 <= i < |octets| {
        OctetHasNoColon(octets[i]);
      }
    }
    SplitJoin(octets, ":");
    ParseOctetsSpec(octets);
  }

  /** The six octets, read back from their texts. */
  lemma ParseOctetTexts(mac: seq<byte>)
    requires |mac| == 6
    ensures var octets := seq(6, i requires 0 <= i < 6 => HexOctetText(mac[i]));
      && AllOctets(octets)
      && ParseOctets(octets).Ok? && ParseOctets(octets).value == mac
  {
    var octets := seq(6, i requires 0 <= i < 6 => HexOctetText(mac[i]));
    assert forall i | 0 <= i < 6 :: ParseOctet(octets[i]) == Ok(mac[i]);
    ParseOctetsSpec(octets);
  }

  /**
    For a MAC-48 shown as `ip` shows it, the identifier is the six octets
    with FF FE inserted after the third, and every other bit kept.
  */
  lemma Eui64OfMac48(mac: seq<byte>)
    requires |mac| == 6
    ensures var r := Eui64FromMac(Join(seq(6, i requires 0 <= i < 6 => HexOctetText(mac[i])), ":"));
      r.Ok? && r.value == mac[..3] + [0xFF, 0xFE] + mac[3..]
  {
    var octets := seq(6, i requires 0 <= i < 6 => HexOctetText(mac[i]));
    ParseOctetTexts(mac);
    Eui64OfOctetTexts(octets);
  }

  lemma ExampleText()
    ensures Join(["00", "11", "22", "33", "44", "55"], ":") == "00:11:22:33:44:55"
  {
    var octets := ["00", "11", "22", "33", "44", "55"];
    JoinCons("00", octets[1..], ":");
    JoinCons("11", octets[2..], ":");
    JoinCons("22", octets[3..], ":");
    JoinCons("33", octets[4..], ":");
    JoinCons("44", octets[5..], ":");
  }

  lemma ExampleOctets()
    ensures var octets := ["00", "11", "22", "33", "44", "55"];
      && AllOctets(octets)
      && ParseOctets(octets).Ok? && ParseOctets(octets).value == [0x00, 0x11, 0x22, 0x33, 0x44, 0x55]
  {
    var octets := ["00", "11", "22", "33", "44", "55"];
    HexValueOfTwo("00");
    HexValueOfTwo("11");
    HexValueOfTwo("22");
    HexValueOfTwo("33");
    HexValueOfTwo("44");
    HexValueOfTwo("55");
    assert ParseOctet(octets[0]) == Ok(0x00) && ParseOctet(octets[1]) == Ok(0x11);
    assert ParseOctet(octets[2]) == Ok(0x22) && ParseOctet(octets[3]) == Ok(0x33);
    assert ParseOctet(octets[4]) == Ok(0x44) && ParseOctet(octets[5]) == Ok(0x55);
    ParseOctetsSpec(octets);
  }

  /** The worked example 00:11:22:33:44:55. */
  lemma Eui64Example(macText: string)
    requires macText == "00:11:22:33:44:55"
    ensures var r := Eui64FromMac(macText);
      r.Ok? && r.value == [0x00, 0x11, 0x22, 0xFF, 0xFE, 0x33, 0x44, 0x55]
  {
    var octets := ["00", "11", "22", "33", "44", "55"];
    ExampleText();
    ExampleOctets();
    Eui64OfOctetTexts(octets);
    var v := ParseOctets(octets).value;
    assert v[..3] + [0xFF, 0xFE] + v[3..] == [0x00, 0x11, 0x22, 0xFF, 0xFE, 0x33, 0x44, 0x55];
  }

  // ------------------------------------------------------------- steps 3-6

  /**
    Steps 1 to 3 of `calc_LAGID`: the 16-octet key, the timestamp first and
    the identifier after it. The timestamp is computed first, so its error
    wins; an identifier of other than 64 bits fails the assertion.
  */
  function LagidKey(t: TimeOfDay, macText: string): (r: Result<seq<byte>, LulaError>)
    ensures r.Ok? <==> NtpTimestamp(t).Ok? && Eui64FromMac(macText).Ok? && |Split(macText, ":")| == 6
    ensures NtpTimestamp(t).Err? ==> r == Err(StructError)
    ensures r.Ok? ==>
      && |r.value| == 16
      && r.value[..8] == NtpTimestamp(t).value
      && r.value[8..] == Eui64FromMac(macText).value
  {
    match NtpTimestamp(t)
    case Err(e) => Err(e)
    case Ok(ts) =>
      match Eui64FromMac(macText)
      case Err(e) => Err(e)
      case Ok(eui) =>
        if |eui| * 8 != 64 then Err(LengthAssertion(|eui| * 8))
        else Ok(ts + eui)
  }

  /** The key gives back both the clock reading and the identifier. */
  lemma LagidKeyInjective(t1: TimeOfDay, mac1: string, t2: TimeOfDay, mac2: string)
    requires LagidKey(t1, mac1).Ok? && LagidKey(t1, mac1) == LagidKey(t2, mac2)
    ensures t1 == t2 && Eui64FromMac(mac1) == Eui64FromMac(mac2)
  {
    var key := LagidKey(t1, mac1).value;
    assert NtpTimestamp(t1).value == key[..8] == NtpTimestamp(t2).value;
    NtpTimestampInjective(t1, t2);
  }

  /** `digest[-5:]`: the least significant 40 bits of the digest, in digest order. */
  function GlobalId(digest: Digest): (g: seq<byte>)
    ensures |g| == 5
    ensures forall i | 0 <= i < 5 :: g[i] == digest[15 + i]
  {
    digest[15..]
  }

  /** A local IPv6 prefix as freshly generated: FD, a 40-bit Global ID, eighty zero bits. */
  predicate IsLocalPrefix(p: seq<byte>)
  {
    |p| == 16 && p[0] == 0xFD && forall i | 6 <= i < 16 :: p[i] == 0
  }

  /** `'\xfd' + global_id + '\0' * 10`: FC00::/7 with the L bit set, then the Global ID. */
  function LocalPrefix(globalId: seq<byte>): (p: seq<byte>)
    requires |globalId| == 5
    ensures IsLocalPrefix(p) && p[1..6] == globalId
  {
    [0xFD] + globalId + [0, 0, 0, 0, 0, 0, 0, 0, 0, 0]
  }

  /** Every well-formed prefix is assembled from the Global ID it carries. */
  lemma LocalPrefixOfGlobalId(p: seq<byte>)
    requires IsLocalPrefix(p)
    ensures LocalPrefix(p[1..6]) == p
  {
  }

  /**
    `calc_LAGID` with its inputs supplied: a 16-octet prefix FD, the last five
    digest octets of the key, ten zero octets. It fails exactly when the
    seconds do not fit 32 bits, a MAC part is not a hexadecimal octet, or the
    MAC text does not have six parts.
  */
  function CalcLagid(t: TimeOfDay, macText: string, sha1: seq<byte> -> Digest): (r: Result<seq<byte>, LulaError>)
    ensures r.Ok? <==>
      && 0 <= t.unixSeconds + TIME1970 < UINT32_LIMIT
      && |Split(macText, ":")| == 6
      && AllOctets(Split(macText, ":"))
    ensures r.Ok? ==>
      && IsLocalPrefix(r.value)
      && r.value[1..6] == sha1(LagidKey(t, macText).value)[15..]
  {
    match LagidKey(t, macText)
    case Err(e) => Err(e)
    case Ok(key) =>
      var digest := sha1(key);
      Ok(LocalPrefix(GlobalId(digest)))
  }

  /** Two calls whose keys are equal give the same prefix. */
  lemma CalcLagidDeterministic(t1: TimeOfDay, mac1: string, t2: TimeOfDay, mac2: string, sha1: seq<byte> -> Digest)
    requires LagidKey(t1, mac1) == LagidKey(t2, mac2)
    ensures CalcLagid(t1, mac1, sha1) == CalcLagid(t2, mac2, sha1)
  {
  }

  /**
    `calc_multiple_LAGIDs(num)`: one prefix per iteration, each from the next
    clock reading. A failing `calc_LAGID` ends the generator with that error
    after the prefixes already produced.
  */
  method CalcMultipleLagids(num: nat, clock: seq<TimeOfDay>, macText: string, sha1: seq<byte> -> Digest)
    returns (prefixes: seq<seq<byte>>, failure: Option<LulaError>)
    requires |clock| == num
    ensures failure.None? ==> |prefixes| == num
    ensures failure.Some? ==> |prefixes| < num && CalcLagid(clock[|prefixes|], macText, sha1) == Err(failure.value)
    ensures forall i | 0 <= i < |prefixes| ::
      CalcLagid(clock[i], macText, sha1) == Ok(prefixes[i]) && IsLocalPrefix(prefixes[i])
  {
    prefixes, failure := [], None;
    var i := 0;
    while i < num
      invariant i == |prefixes| <= num
      invariant forall j | 0 <= j < i :: CalcLagid(clock[j], macText, sha1) == Ok(prefixes[j])
    {
      var r := CalcLagid(clock[i], macText, sha1);
      if r.Err? {
        failure := Some(r.error);
        return;
      }
      prefixes := prefixes + [r.value];
      i := i + 1;
    }
  }
}
