/**
 * Base 64 encoding of RFC 4648: the standard alphabet with `=` padding (section 4), which is
 * what Node's `Buffer.toString('base64')` and `digest('base64')` produce, and the URL and
 * filename safe alphabet without padding (section 5, and Appendix A of RFC 7636).
 */
module Base64 {
  import opened Wrappers
  import opened Octets

  type Sextet = v: nat | v < 64

  /** Table 1 of RFC 4648: `A-Z`, `a-z`, `0-9`, `+`, `/`. */
  function StdChar(v: Sextet): (c: char)
    ensures c != '='
  {
    if v < 26 then ('A' as int + v) as char
    else if v < 52 then ('a' as int + v - 26) as char
    else if v < 62 then ('0' as int + v - 52) as char
    else if v == 62 then '+'
    else '/'
  }

  /** Table 2 of RFC 4648: as Table 1, with `-` and `_` in place of `+` and `/`. */
  function UrlChar(v: Sextet): (c: char)
    ensures IsUrlChar(c)
  {
    if v < 26 then ('A' as int + v) as char
    else if v < 52 then ('a' as int + v - 26) as char
    else if v < 62 then ('0' as int + v - 52) as char
    else if v == 62 then '-'
    else '_'
  }

  predicate IsUrlChar(c: char) {
    'A' <= c <= 'Z' || 'a' <= c <= 'z' || '0' <= c <= '9' || c == '-' || c == '_'
  }

  /** The value of a character of Table 2; None for any character outside it. */
  function UrlValue(c: char): (r: Option<Sextet>)
    ensures r.Some? <==> IsUrlChar(c)
  {
    if 'A' <= c <= 'Z' then Some(c as int - 'A' as int)
    else if 'a' <= c <= 'z' then Some(c as int - 'a' as int + 26)
    else if '0' <= c <= '9' then Some(c as int - '0' as int + 52)
    else if c == '-' then Some(62)
    else if c == '_' then Some(63)
    else None
  }

  lemma UrlValueOfUrlChar(v: Sextet)
    ensures UrlValue(UrlChar(v)) == Some(v)
  {
  }

  /**
   * The 6-bit groups of a byte sequence, most significant bits first (section 4 of RFC 4648).
   * A final group of one or two bytes is filled with zero bits to a whole group.
   */
  function Sextets(b: seq<Byte>): (r: seq<Sextet>)
    ensures |r| == (8 * |b| + 5) / 6
    decreases |b|
  {
    if |b| == 0 then []
    else if |b| == 1 then [b[0] / 4, (b[0] % 4) * 16]
    else if |b| == 2 then [b[0] / 4, (b[0] % 4) * 16 + b[1] / 16, (b[1] % 16) * 4]
    else [b[0] / 4, (b[0] % 4) * 16 + b[1] / 16, (b[1] % 16) * 4 + b[2] / 64, b[2] % 64] + Sextets(b[3..])
  }

  function StdChars(v: seq<Sextet>): (s: string)
    ensures |s| == |v|
    ensures forall i :: 0 <= i < |v| ==> s[i] == StdChar(v[i])
  {
    if v == [] then "" else [StdChar(v[0])] + StdChars(v[1..])
  }

  function UrlChars(v: seq<Sextet>): (s: string)
    ensures |s| == |v|
    ensures forall i :: 0 <= i < |v| ==> s[i] == UrlChar(v[i])
  {
    if v == [] then "" else [UrlChar(v[0])] + UrlChars(v[1..])
  }

  /** The `=` characters that complete the last quantum to four characters. */
  function Padding(n: nat): (p: string)
    ensures ((8 * n + 5) / 6 + |p|) % 4 == 0
    ensures forall i :: 0 <= i < |p| ==> p[i] == '='
  {
    if n % 3 == 1 then "==" else if n % 3 == 2 then "=" else ""
  }

  /** Standard base 64 with padding (section 4 of RFC 4648). */
  function Encode(b: seq<Byte>): (s: string)
  {
    StdChars(Sextets(b)) + Padding(|b|)
  }

  /** URL and filename safe base 64 without padding (section 5 of RFC 4648). */
  function EncodeUrlNoPad(b: seq<Byte>): (s: string)
    ensures |s| == (8 * |b| + 5) / 6
    ensures forall i :: 0 <= i < |s| ==> IsUrlChar(s[i])
  {
    UrlChars(Sextets(b))
  }

  lemma EncodeLength(b: seq<Byte>)
    ensures |Encode(b)| == 4 * ((|b| + 2) / 3)
    ensures |Encode(b)| % 4 == 0
  {
  }

  /** The value of a character of Table 1; None for any character outside it, `=` included. */
  function StdValue(c: char): (r: Option<Sextet>)
    ensures r.Some? ==> c != '='
  {
    if 'A' <= c <= 'Z' then Some(c as int - 'A' as int)
    else if 'a' <= c <= 'z' then Some(c as int - 'a' as int + 26)
    else if '0' <= c <= '9' then Some(c as int - '0' as int + 52)
    else if c == '+' then Some(62)
    else if c == '/' then Some(63)
    else None
  }

  lemma StdValueOfStdChar(v: Sextet)
    ensures StdValue(StdChar(v)) == Some(v)
  {
  }

  function StdValues(s: string): (r: Option<seq<Sextet>>)
    ensures r.Some? ==> |r.value| == |s|
  {
    if s == [] then Some([])
    else
      match (StdValue(s[0]), StdValues(s[1..]))
      case (Some(v), Some(vs)) => Some([v] + vs)
      case _ => None
  }

  /** The number of `=` at the end of a padded text: two, one or none. */
  function PaddingLength(s: string): (k: nat)
    ensures k <= |s| && k <= 2
    ensures forall i :: |s| - k <= i < |s| ==> s[i] == '='
  {
    if |s| >= 2 && s[|s| - 2] == '=' && s[|s| - 1] == '=' then 2
    else if |s| >= 1 && s[|s| - 1] == '=' then 1
    else 0
  }

  /**
   * Decoding of standard base 64 with padding: None unless the text is whole quanta of
   * Table 1 characters, with at most two `=` at the end.
   */
  function Decode(s: string): Option<seq<Byte>>
  {
    if |s| % 4 != 0 then None
    else
      match StdValues(s[..|s| - PaddingLength(s)])
      case None => None
      case Some(v) => DecodeSextets(v)
  }

  /** The three bytes a quantum of four sextets carries (the last two may be partial). */
  function First(x: Sextet, y: Sextet): Byte { x * 4 + y / 16 }
  function Second(y: Sextet, z: Sextet): Byte { (y % 16) * 16 + z / 4 }
  function Third(z: Sextet, w: Sextet): Byte { (z % 4) * 64 + w }

  /** Regroups 6-bit values into bytes; a single trailing group cannot encode a byte. */
  function DecodeSextets(v: seq<Sextet>): (r: Option<seq<Byte>>)
    decreases |v|
  {
    if |v| == 0 then Some([])
    else if |v| == 1 then None
    else if |v| == 2 then Some([First(v[0], v[1])])
    else if |v| == 3 then Some([First(v[0], v[1]), Second(v[1], v[2])])
    else
      match DecodeSextets(v[4..])
      case None => None
      case Some(rest) => Some([First(v[0], v[1]), Second(v[1], v[2]), Third(v[2], v[3])] + rest)
  }

  function UrlValues(s: string): (r: Option<seq<Sextet>>)
    ensures r.Some? ==> |r.value| == |s|
  {
    if s == [] then Some([])
    else
      match (UrlValue(s[0]), UrlValues(s[1..]))
      case (Some(v), Some(vs)) => Some([v] + vs)
      case _ => None
  }

  /** Decoding of URL-safe base 64 without padding: None on a character outside Table 2. */
  function DecodeUrlNoPad(s: string): Option<seq<Byte>>
  {
    match UrlValues(s)
    case None => None
    case Some(v) => DecodeSextets(v)
  }

  lemma {:induction false} UrlValuesOfUrlChars(v: seq<Sextet>)
    ensures UrlValues(UrlChars(v)) == Some(v)
  {
    if v != [] {
      UrlValueOfUrlChar(v[0]);
      assert UrlChars(v)[1..] == UrlChars(v[1..]);
      UrlValuesOfUrlChars(v[1..]);
      assert [v[0]] + v[1..] == v;
    }
  }

  /** The sextets of one full quantum of three bytes. */
  function Quantum(b0: Byte, b1: Byte, b2: Byte): seq<Sextet> {
    [b0 / 4, (b0 % 4) * 16 + b1 / 16, (b1 % 16) * 4 + b2 / 64, b2 % 64]
  }

  lemma RegroupQuantum(b0: Byte, b1: Byte, b2: Byte)
    ensures First(b0 / 4, (b0 % 4) * 16 + b1 / 16) == b0
    ensures Second((b0 % 4) * 16 + b1 / 16, (b1 % 16) * 4 + b2 / 64) == b1
    ensures Third((b1 % 16) * 4 + b2 / 64, b2 % 64) == b2
  {
  }

  lemma SextetsSplit(b: seq<Byte>)
    requires |b| >= 3
    ensures Sextets(b) == Quantum(b[0], b[1], b[2]) + Sextets(b[3..])
  {
  }

  lemma DecodeSextetsSplit(q: seq<Sextet>, v: seq<Sextet>)
    requires |q| == 4
    ensures DecodeSextets(q + v) ==
      match DecodeSextets(v)
      case None => None
      case Some(rest) => Some([First(q[0], q[1]), Second(q[1], q[2]), Third(q[2], q[3])] + rest)
  {
  }

  lemma {:induction false} DecodeSextetsOfSextets(b: seq<Byte>)
    ensures DecodeSextets(Sextets(b)) == Some(b)
    decreases |b|
  {
    if |b| == 0 {
    } else if |b| == 1 {
      RegroupQuantum(b[0], 0, 0);
      assert b == [b[0]];
    } else if |b| == 2 {
      RegroupQuantum(b[0], b[1], 0);
      assert b == [b[0], b[1]];
    } else {
      var q := Quantum(b[0], b[1], b[2]);
      SextetsSplit(b);
      DecodeSextetsSplit(q, Sextets(b[3..]));
      DecodeSextetsOfSextets(b[3..]);
      RegroupQuantum(b[0], b[1], b[2]);
      assert [b[0], b[1], b[2]] + b[3..] == b;
    }
  }

  /** Decoding undoes URL-safe encoding: every byte sequence is recovered. */
  lemma DecodeEncodeUrlNoPad(b: seq<Byte>)
    ensures DecodeUrlNoPad(EncodeUrlNoPad(b)) == Some(b)
  {
    UrlValuesOfUrlChars(Sextets(b));
    DecodeSextetsOfSextets(b);
  }

  lemma {:induction false} StdValuesOfStdChars(v: seq<Sextet>)
    ensures StdValues(StdChars(v)) == Some(v)
  {
    if v != [] {
      StdValueOfStdChar(v[0]);
      assert StdChars(v)[1..] == StdChars(v[1..]);
      StdValuesOfStdChars(v[1..]);
      assert [v[0]] + v[1..] == v;
    }
  }

  /** The padding of an encoding is exactly its trailing `=`. */
  lemma PaddingLengthOfEncode(b: seq<Byte>)
    ensures PaddingLength(Encode(b)) == |Padding(|b|)|
  {
    var s := Encode(b);
    var body := StdChars(Sextets(b));
    assert s == body + Padding(|b|);
    if |b| % 3 == 1 {
      assert s[|s| - 3] == body[|body| - 1] != '=';
    } else if |b| % 3 == 2 {
      assert s[|s| - 2] == body[|body| - 1] != '=';
    } else if |b| > 0 {
      assert s[|s| - 1] == body[|body| - 1] != '=';
    }
  }

  /** Decoding undoes standard encoding: every byte sequence is recovered. */
  lemma DecodeEncode(b: seq<Byte>)
    ensures Decode(Encode(b)) == Some(b)
  {
    var s := Encode(b);
    EncodeLength(b);
    PaddingLengthOfEncode(b);
    assert s[..|s| - PaddingLength(s)] == StdChars(Sextets(b));
    StdValuesOfStdChars(Sextets(b));
    DecodeSextetsOfSextets(b);
  }
}
