/**
 * The `application/x-www-form-urlencoded` serializer of the WHATWG URL Standard, which
 * `new URLSearchParams(record).toString()` runs, and a parser that inverts it.
 *
 * The serializer UTF-8 encodes each name and value, keeps ASCII alphanumerics and `*-._`,
 * writes a space as `+`, percent-encodes every other byte with upper-case hexadecimal digits,
 * joins name and value with `=` and the pairs with `&`.
 */
module FormUrlEncoded {
  import opened Wrappers
  import opened Octets
  import Utf8

  /** The bytes that are not in the urlencoded percent-encode set. */
  predicate IsUnreserved(b: Byte) {
    || 0x30 <= b <= 0x39 || 0x41 <= b <= 0x5A || 0x61 <= b <= 0x7A
    || b == 0x2A || b == 0x2D || b == 0x2E || b == 0x5F
  }

  /** The characters the serializer can produce. */
  predicate IsQueryChar(c: char) {
    (c as int < 0x80 && IsUnreserved(c as int)) || c == '+' || c == '%'
    || '0' <= c <= '9' || 'A' <= c <= 'F'
  }

  function EncodeByte(b: Byte): (s: string)
    ensures 1 <= |s| <= 3
    ensures forall i :: 0 <= i < |s| ==> IsQueryChar(s[i])
  {
    if IsUnreserved(b) then [b as char]
    else if b == 0x20 then "+"
    else ['%', UpperHexDigit(b / 16), UpperHexDigit(b % 16)]
  }

  function EncodeBytes(b: seq<Byte>): (s: string)
    ensures forall i :: 0 <= i < |s| ==> IsQueryChar(s[i])
  {
    if b == [] then "" else EncodeByte(b[0]) + EncodeBytes(b[1..])
  }

  /** The urlencoded form of one name or value. */
  function Encode(s: string): (r: string)
    ensures forall i :: 0 <= i < |r| ==> IsQueryChar(r[i])
    ensures '&' !in r && '=' !in r
  {
    EncodeBytes(Utf8.Encode(s))
  }

  function SerializePair(p: (string, string)): string {
    Encode(p.0) + "=" + Encode(p.1)
  }

  /** The serializer: the encoded pairs, in order, separated by `&`. */
  function Serialize(pairs: seq<(string, string)>): string
  {
    if |pairs| == 0 then ""
    else if |pairs| == 1 then SerializePair(pairs[0])
    else SerializePair(pairs[0]) + "&" + Serialize(pairs[1..])
  }

  function Prepend(b: Byte, r: Option<seq<Byte>>): Option<seq<Byte>> {
    match r
    case None => None
    case Some(bs) => Some([b] + bs)
  }

  /**
   * Percent-decoding of an encoded name or value: `+` is a space, `%XY` is the byte with the
   * hexadecimal digits X and Y. None on any character the serializer does not produce.
   */
  function DecodeBytes(s: string): Option<seq<Byte>>
    decreases |s|
  {
    if s == [] then Some([])
    else if s[0] == '+' then Prepend(0x20, DecodeBytes(s[1..]))
    else if s[0] == '%' then
      if |s| >= 3 && HexValue(s[1]).Some? && HexValue(s[2]).Some? then
        Prepend(HexValue(s[1]).value * 16 + HexValue(s[2]).value, DecodeBytes(s[3..]))
      else None
    else if s[0] as int < 0x80 && IsUnreserved(s[0] as int) then Prepend(s[0] as int, DecodeBytes(s[1..]))
    else None
  }

  function Decode(s: string): Option<string> {
    match DecodeBytes(s)
    case None => None
    case Some(b) => Utf8.Decode(b)
  }

  /** The position of the first `c` in `s`, or `|s|` when there is none. */
  function IndexOf(s: string, c: char): (i: nat)
    ensures i <= |s|
    ensures c !in s[..i]
    ensures i < |s| ==> s[i] == c
  {
    if s == [] then 0
    else if s[0] == c then 0
    else
      assert s[1..][..IndexOf(s[1..], c)] == s[..IndexOf(s[1..], c) + 1][1..];
      1 + IndexOf(s[1..], c)
  }

  /** A name and value separated by the first `=`; a piece without `=` has an empty value. */
  function ParsePair(piece: string): Option<(string, string)> {
    var i := IndexOf(piece, '=');
    var value := if i < |piece| then piece[i + 1..] else "";
    match (Decode(piece[..i]), Decode(value))
    case (Some(n), Some(v)) => Some((n, v))
    case _ => None
  }

  /** The parser: split at `&`, skip empty pieces, decode every name and value. */
  function ParseQuery(q: string): Option<seq<(string, string)>>
    decreases |q|
  {
    var i := IndexOf(q, '&');
    var rest := if i < |q| then ParseQuery(q[i + 1..]) else Some([]);
    if i == 0 then rest
    else
      match (ParsePair(q[..i]), rest)
      case (Some(p), Some(ps)) => Some([p] + ps)
      case _ => None
  }

  lemma {:induction false} EncodeBytesAppend(a: seq<Byte>, b: seq<Byte>)
    ensures EncodeBytes(a + b) == EncodeBytes(a) + EncodeBytes(b)
  {
    if a == [] {
      assert a + b == b;
    } else {
      assert (a + b)[1..] == a[1..] + b;
      EncodeBytesAppend(a[1..], b);
    }
  }

  /** Encoding works character by character. */
  lemma EncodeAppend(s: string, t: string)
    ensures Encode(s + t) == Encode(s) + Encode(t)
  {
    Utf8.EncodeAppend(s, t);
    EncodeBytesAppend(Utf8.Encode(s), Utf8.Encode(t));
  }

  /**
   * An ASCII character is kept when it is alphanumeric or one of `*-._`, a space becomes `+`,
   * and anything else becomes `%` and two upper-case hexadecimal digits.
   */
  lemma EncodeAsciiChar(c: char)
    requires c as int < 0x80
    ensures Encode([c]) ==
      if IsUnreserved(c as int) then [c]
      else if c == ' ' then "+"
      else ['%', UpperHexDigit(c as int / 16), UpperHexDigit(c as int % 16)]
  {
    assert Utf8.Encode([c]) == [c as int] by {
      assert [c][1..] == [];
    }
    assert EncodeBytes([c as int]) == EncodeByte(c as int) + EncodeBytes([]);
  }

  /** A string of ASCII alphanumerics and `*-._` is its own encoding. */
  lemma {:induction false} EncodeUnreserved(s: string)
    requires forall i :: 0 <= i < |s| ==> s[i] as int < 0x80 && IsUnreserved(s[i] as int)
    ensures Encode(s) == s
  {
    if s != [] {
      EncodeAsciiChar(s[0]);
      EncodeAppend([s[0]], s[1..]);
      assert s == [s[0]] + s[1..];
      EncodeUnreserved(s[1..]);
    }
  }

  predicate IsUnreservedText(s: string) {
    forall i :: 0 <= i < |s| ==> s[i] as int < 0x80 && IsUnreserved(s[i] as int)
  }

  /** Space-separated words, as in the scope `read write`: each space becomes `+`. */
  lemma EncodeWords(w1: string, w2: string)
    requires IsUnreservedText(w1) && IsUnreservedText(w2)
    ensures Encode(w1 + [' '] + w2) == w1 + "+" + w2
  {
    EncodeAppend(w1, [' ']);
    EncodeAppend(w1 + [' '], w2);
    EncodeUnreserved(w1);
    EncodeUnreserved(w2);
    EncodeAsciiChar(' ');
  }

  lemma EncodeSeparators()
    ensures Encode([':']) == "%3A" && Encode(['/']) == "%2F" && Encode([':', '/', '/']) == "%3A%2F%2F"
  {
  }

  /**
   * A URI such as `http://localhost:3000/callback`: the separators `:` and `/` become
   * `%3A` and `%2F`, everything else is kept.
   */
  lemma EncodeUri(scheme: string, host: string, port: string, path: string)
    requires IsUnreservedText(scheme) && IsUnreservedText(host) && IsUnreservedText(port) && IsUnreservedText(path)
    ensures Encode(scheme + [':', '/', '/'] + host + [':'] + port + ['/'] + path)
         == scheme + "%3A%2F%2F" + host + "%3A" + port + "%2F" + path
  {
    EncodeSeparators();
    EncodeUnreserved(scheme);
    EncodeUnreserved(host);
    EncodeUnreserved(port);
    EncodeUnreserved(path);
    var s1 := scheme + [':', '/', '/'];
    var s2 := s1 + host;
    var s3 := s2 + [':'];
    var s4 := s3 + port;
    var s5 := s4 + ['/'];
    EncodeAppend(scheme, [':', '/', '/']);
    EncodeAppend(s1, host);
    EncodeAppend(s2, [':']);
    EncodeAppend(s3, port);
    EncodeAppend(s4, ['/']);
    EncodeAppend(s5, path);
  }

  // Round trip

  lemma DecodeEncodeByte(b: Byte, rest: string)
    ensures DecodeBytes(EncodeByte(b) + rest) == Prepend(b, DecodeBytes(rest))
  {
  }

  lemma {:induction false} DecodeEncodeBytes(b: seq<Byte>)
    ensures DecodeBytes(EncodeBytes(b)) == Some(b)
  {
    if b != [] {
      DecodeEncodeByte(b[0], EncodeBytes(b[1..]));
      DecodeEncodeBytes(b[1..]);
      assert [b[0]] + b[1..] == b;
    }
  }

  /** Decoding undoes the encoding of a name or value. */
  lemma DecodeEncode(s: string)
    ensures Decode(Encode(s)) == Some(s)
  {
    DecodeEncodeBytes(Utf8.Encode(s));
    Utf8.DecodeEncode(s);
  }

  lemma IndexOfFirst(x: string, c: char, y: string)
    requires c !in x
    ensures IndexOf(x + [c] + y, c) == |x|
  {
    var s := x + [c] + y;
    assert s[|x|] == c;
    assert s[..|x|] == x;
  }

  lemma ParseSerializePair(p: (string, string))
    ensures ParsePair(SerializePair(p)) == Some(p)
  {
    var n, v := Encode(p.0), Encode(p.1);
    IndexOfFirst(n, '=', v);
    assert SerializePair(p) == n + ['='] + v;
    assert SerializePair(p)[..|n|] == n;
    assert SerializePair(p)[|n| + 1..] == v;
    DecodeEncode(p.0);
    DecodeEncode(p.1);
  }

  lemma ParseQueryLast(piece: string)
    requires '&' !in piece && '=' in piece
    ensures ParseQuery(piece) ==
      match ParsePair(piece)
      case Some(p) => Some([p])
      case None => None
  {
    assert |piece| > 0;
    assert IndexOf(piece, '&') == |piece|;
    assert piece[..|piece|] == piece;
    if ParsePair(piece).Some? {
      assert [ParsePair(piece).value] + [] == [ParsePair(piece).value];
    }
  }

  lemma ParseQueryCons(piece: string, tail: string)
    requires '&' !in piece && '=' in piece
    ensures ParseQuery(piece + ['&'] + tail) ==
      match (ParsePair(piece), ParseQuery(tail))
      case (Some(p), Some(ps)) => Some([p] + ps)
      case _ => None
  {
    var q := piece + ['&'] + tail;
    IndexOfFirst(piece, '&', tail);
    assert q[..|piece|] == piece;
    assert q[|piece| + 1..] == tail;
  }

  lemma {:induction false} ParseSerialize(pairs: seq<(string, string)>)
    ensures ParseQuery(Serialize(pairs)) == Some(pairs)
  {
    if |pairs| > 0 {
      var head := SerializePair(pairs[0]);
      ParseSerializePair(pairs[0]);
      assert head[|Encode(pairs[0].0)|] == '=';
      if |pairs| == 1 {
        ParseQueryLast(head);
        assert pairs == [pairs[0]];
      } else {
        ParseQueryCons(head, Serialize(pairs[1..]));
        ParseSerialize(pairs[1..]);
        assert [pairs[0]] + pairs[1..] == pairs;
      }
    }
  }
}
