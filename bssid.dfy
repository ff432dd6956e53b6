/** BSSID normalisation: the string form that keys the network table
    (`_bssid_to_str`, and the same expression for the active access point). */
module Bssid {
  import opened WifiTypes

  /** A lower-case hexadecimal digit for a value below 16. */
  function HexDigit(n: int): (c: char)
    requires 0 <= n < 16
    ensures n < 10 ==> '0' <= c <= '9'
    ensures 10 <= n ==> 'a' <= c <= 'f'
  {
    if n < 10 then ('0' as int + n) as char else ('a' as int + n - 10) as char
  }

  /** The value of a lower-case hexadecimal digit; anything else is not one. */
  function HexValue(c: char): (v: Option<int>)
    ensures v.Some? ==> 0 <= v.value < 16
  {
    if '0' <= c <= '9' then Some(c as int - '0' as int)
    else if 'a' <= c <= 'f' then Some(c as int - 'a' as int + 10)
    else None
  }

  /** `f"{b:02x}"`: the byte as two lower-case hexadecimal digits. */
  function HexPair(b: byte): (s: string)
    ensures |s| == 2
  {
    [HexDigit(b as int / 16), HexDigit(b as int % 16)]
  }

  /** `":".join(f"{b:02x}" for b in octets)`. */
  function FormatOctets(octets: seq<byte>): (s: string)
    ensures |octets| == 0 ==> s == ""
    ensures |octets| > 0 ==> |s| == 3 * |octets| - 1
  {
    if |octets| == 0 then ""
    else if |octets| == 1 then HexPair(octets[0])
    else HexPair(octets[0]) + ":" + FormatOctets(octets[1..])
  }

  /** `_bssid_to_str`: bytes are formatted as colon-separated hex, a string
      is kept as it is (`str(bssid_raw)`). */
  function BssidToStr(raw: RawBssid): Key {
    match raw
    case Bytes(octets) => FormatOctets(octets)
    case Text(text) => text
  }

  /** The table key of an access point. */
  function KeyOf(ap: AccessPoint): Key {
    BssidToStr(ap.bssid)
  }

  /** The formatted string is made of one two-digit group per byte, in byte
      order, with a ':' between consecutive groups. */
  lemma {:induction false} FormatLayout(octets: seq<byte>, i: nat)
    requires i < |octets|
    ensures FormatOctets(octets)[3 * i .. 3 * i + 2] == HexPair(octets[i])
    ensures i < |octets| - 1 ==> FormatOctets(octets)[3 * i + 2] == ':'
  {
    var s := FormatOctets(octets);
    if |octets| == 1 {
    } else if i == 0 {
      assert s == HexPair(octets[0]) + ":" + FormatOctets(octets[1..]);
    } else {
      var rest := FormatOctets(octets[1..]);
      assert s == HexPair(octets[0]) + ":" + rest;
      FormatLayout(octets[1..], i - 1);
      assert s[3 * i .. 3 * i + 2] == rest[3 * (i - 1) .. 3 * (i - 1) + 2];
      if i < |octets| - 1 {
        assert s[3 * i + 2] == rest[3 * (i - 1) + 2];
      }
    }
  }

  /** Every character of a formatted BSSID is a lower-case hex digit or ':'. */
  lemma FormatAlphabet(octets: seq<byte>, k: nat)
    requires k < |FormatOctets(octets)|
    ensures var c := FormatOctets(octets)[k]; c == ':' || HexValue(c).Some?
  {
    var i := k / 3;
    FormatLayout(octets, i);
    if k % 3 == 2 {
      assert FormatOctets(octets)[k] == ':';
    } else {
      assert FormatOctets(octets)[k] == HexPair(octets[i])[k % 3];
    }
  }

  /** Two hexadecimal digits back to the byte they denote. */
  function ParsePair(a: char, b: char): Option<byte> {
    match (HexValue(a), HexValue(b))
    case (Some(x), Some(y)) => Some((16 * x + y) as byte)
    case _ => None
  }

  /** Reads a colon-separated lower-case hex string back into bytes. */
  function ParseOctets(s: string): Option<seq<byte>>
    decreases |s|
  {
    if |s| == 0 then Some([])
    else if |s| < 2 then None
    else
      match ParsePair(s[0], s[1])
      case None => None
      case Some(b) =>
        if |s| == 2 then Some([b])
        else if |s| > 3 && s[2] == ':' then
          match ParseOctets(s[3..])
          case None => None
          case Some(rest) => Some([b] + rest)
        else None
  }

  lemma PairRoundTrip(b: byte)
    ensures ParsePair(HexPair(b)[0], HexPair(b)[1]) == Some(b)
  {
    var hi, lo := b as int / 16, b as int % 16;
    assert HexValue(HexDigit(hi)) == Some(hi);
    assert HexValue(HexDigit(lo)) == Some(lo);
  }

  lemma PairRoundTripBack(a: char, b: char, v: byte)
    requires ParsePair(a, b) == Some(v)
    ensures HexPair(v) == [a, b]
  {
    var x, y := HexValue(a).value, HexValue(b).value;
    assert v as int == 16 * x + y;
    assert v as int / 16 == x && v as int % 16 == y;
  }

  /** Parsing a formatted BSSID gives back the bytes. */
  lemma {:induction false} ParseFormat(octets: seq<byte>)
    ensures ParseOctets(FormatOctets(octets)) == Some(octets)
  {
    if |octets| > 0 {
      var s := FormatOctets(octets);
      PairRoundTrip(octets[0]);
      assert s[0] == HexPair(octets[0])[0] && s[1] == HexPair(octets[0])[1];
      if |octets| > 1 {
        ParseFormat(octets[1..]);
        assert s == HexPair(octets[0]) + ":" + FormatOctets(octets[1..]);
        assert |s| > 3 && s[2] == ':';
        assert s[3..] == FormatOctets(octets[1..]);
        assert [octets[0]] + octets[1..] == octets;
      } else {
        assert octets == [octets[0]];
      }
    }
  }

  /** Every string the parser accepts is the formatted form of what it
      returns, so formatting and parsing are inverse bijections. */
  lemma {:induction false} FormatParsed(s: string, octets: seq<byte>)
    requires ParseOctets(s) == Some(octets)
    ensures FormatOctets(octets) == s
    decreases |s|
  {
    if |s| > 0 {
      var b := ParsePair(s[0], s[1]).value;
      PairRoundTripBack(s[0], s[1], b);
      if |s| == 2 {
        assert s == [s[0], s[1]];
      } else {
        var rest := ParseOctets(s[3..]).value;
        FormatParsed(s[3..], rest);
        assert octets == [b] + rest;
        assert octets[1..] == rest;
        assert s == [s[0], s[1]] + ":" + s[3..];
      }
    }
  }

  /** Distinct byte strings never collide as table keys. */
  lemma FormatInjective(a: seq<byte>, b: seq<byte>)
    requires FormatOctets(a) == FormatOctets(b)
    ensures a == b
  {
    ParseFormat(a);
    ParseFormat(b);
  }
}
