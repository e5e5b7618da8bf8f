/** `URLSearchParams.prototype.toString`: the application/x-www-form-urlencoded
    serializer of section 5.2 of the WHATWG URL Standard, with the
    percent-encode sets of its section 1.3 and the UTF-8 encoder of the WHATWG
    Encoding Standard. The parser of section 5.1 is modelled as its partner. */
module FormUrlEncoded {
  import opened Wrappers
  import opened Strings

  type Byte = b: int | 0 <= b < 256

  /** One name-value pair of a query. */
  type Pair = (string, string)

  // ---------------------------------------------------------------- Encode sets

  predicate InC0ControlSet(b: int) { (0 <= b <= 0x1F) || b > 0x7E }

  predicate InQuerySet(b: int) {
    InC0ControlSet(b) || b == 0x20 || b == 0x22 || b == 0x23 || b == 0x3C || b == 0x3E
  }

  predicate InPathSet(b: int) {
    InQuerySet(b) || b == 0x3F || b == 0x5E || b == 0x60 || b == 0x7B || b == 0x7D
  }

  predicate InUserinfoSet(b: int) {
    InPathSet(b) || b == 0x2F || b == 0x3A || b == 0x3B || b == 0x3D || b == 0x40 ||
    (0x5B <= b <= 0x5E) || b == 0x7C
  }

  predicate InComponentSet(b: int) {
    InUserinfoSet(b) || (0x24 <= b <= 0x26) || b == 0x2B || b == 0x2C
  }

  /** The application/x-www-form-urlencoded percent-encode set. */
  predicate InFormSet(b: int) {
    InComponentSet(b) || b == 0x21 || (0x27 <= b <= 0x29) || b == 0x7E
  }

  /** The bytes the serializer leaves as they are: ASCII letters and digits
      and `*`, `-`, `.`, `_`. */
  predicate IsUnreservedByte(b: int) {
    ('a' as int <= b <= 'z' as int) || ('A' as int <= b <= 'Z' as int) ||
    ('0' as int <= b <= '9' as int) ||
    b == '*' as int || b == '-' as int || b == '.' as int || b == '_' as int
  }

  /** The layered definition of the set leaves exactly the unreserved bytes
      (and the space, which becomes `+`) outside it. */
  lemma FormSetComplement(b: Byte)
    ensures !InFormSet(b) <==> IsUnreservedByte(b)
  {
  }

  // ---------------------------------------------------------------- UTF-8

  /** The UTF-8 encoder of the Encoding Standard, with the shifts written as
      divisions by 64. */
  function Utf8Char(c: char): (r: seq<Byte>)
    ensures 1 <= |r| <= 4
    ensures (c as int < 0x80) <==> |r| == 1
    ensures |r| == 1 ==> r[0] == c as int
    ensures |r| > 1 ==> forall i :: 0 <= i < |r| ==> r[i] >= 0x80
  {
    var cp := c as int;
    if cp < 0x80 then [cp]
    else if cp < 0x800 then [0xC0 + cp / 64, 0x80 + cp % 64]
    else if cp < 0x10000 then [0xE0 + cp / 64 / 64, 0x80 + cp / 64 % 64, 0x80 + cp % 64]
    else [0xF0 + cp / 64 / 64 / 64, 0x80 + cp / 64 / 64 % 64, 0x80 + cp / 64 % 64, 0x80 + cp % 64]
  }

  function Utf8(s: string): seq<Byte> {
    if |s| == 0 then [] else Utf8Char(s[0]) + Utf8(s[1..])
  }

  predicate IsContinuation(b: Byte) { 0x80 <= b < 0xC0 }

  predicate IsScalarValue(cp: int) { (0 <= cp < 0xD800) || (0xE000 <= cp <= 0x10FFFF) }

  /** Decodes the character at the start of `bs` and how many bytes it took;
      `None` when the bytes there are not a UTF-8 encoded scalar value. */
  function DecodeChar(bs: seq<Byte>): (r: Option<(char, nat)>)
    requires |bs| > 0
    ensures r.Some? ==> 1 <= r.value.1 <= |bs|
  {
    var b0: int := bs[0];
    var (cp, n) :=
      if b0 < 0x80 then (b0, 1)
      else if 0xC0 <= b0 < 0xE0 && |bs| >= 2 && IsContinuation(bs[1]) then
        ((b0 - 0xC0) * 64 + (bs[1] - 0x80), 2)
      else if 0xE0 <= b0 < 0xF0 && |bs| >= 3 && IsContinuation(bs[1]) && IsContinuation(bs[2]) then
        (((b0 - 0xE0) * 64 + (bs[1] - 0x80)) * 64 + (bs[2] - 0x80), 3)
      else if 0xF0 <= b0 < 0xF8 && |bs| >= 4 && IsContinuation(bs[1]) && IsContinuation(bs[2]) &&
              IsContinuation(bs[3]) then
        ((((b0 - 0xF0) * 64 + (bs[1] - 0x80)) * 64 + (bs[2] - 0x80)) * 64 + (bs[3] - 0x80), 4)
      else (-1, 0 as nat);
    if n > 0 && IsScalarValue(cp) && |Utf8Char(cp as char)| == n then Some((cp as char, n))
    else None
  }

  /** UTF-8 decoding of well-formed input; `None` on malformed input. */
  function Utf8Decode(bs: seq<Byte>): Option<string>
    decreases |bs|
  {
    if |bs| == 0 then Some("")
    else match DecodeChar(bs)
      case None => None
      case Some((c, n)) =>
        match Utf8Decode(bs[n..])
        case None => None
        case Some(rest) => Some([c] + rest)
  }

  lemma DecodeEncodedChar(c: char, rest: seq<Byte>)
    ensures DecodeChar(Utf8Char(c) + rest) == Some((c, |Utf8Char(c)|))
  {
    var cp := c as int;
    var e := Utf8Char(c);
    var bs := e + rest;
    assert bs[..|e|] == e;
    if cp < 0x80 {
    } else if cp < 0x800 {
      DecodeTwo(cp, bs);
    } else if cp < 0x10000 {
      DecodeThree(cp, bs);
    } else {
      DecodeFour(cp, bs);
    }
  }

  lemma DecodeTwo(cp: int, bs: seq<Byte>)
    requires 0x80 <= cp < 0x800
    requires |bs| >= 2 && bs[0] == 0xC0 + cp / 64 && bs[1] == 0x80 + cp % 64
    ensures DecodeChar(bs) == Some((cp as char, 2))
  {
    assert cp == cp / 64 * 64 + cp % 64;
  }

  lemma DecodeThree(cp: int, bs: seq<Byte>)
    requires 0x800 <= cp < 0x10000 && IsScalarValue(cp)
    requires |bs| >= 3 && bs[0] == 0xE0 + cp / 64 / 64 && bs[1] == 0x80 + cp / 64 % 64 &&
             bs[2] == 0x80 + cp % 64
    ensures DecodeChar(bs) == Some((cp as char, 3))
  {
    assert cp == cp / 64 * 64 + cp % 64;
    assert cp / 64 == cp / 64 / 64 * 64 + cp / 64 % 64;
  }

  lemma DecodeFour(cp: int, bs: seq<Byte>)
    requires 0x10000 <= cp <= 0x10FFFF
    requires |bs| >= 4 && bs[0] == 0xF0 + cp / 64 / 64 / 64 && bs[1] == 0x80 + cp / 64 / 64 % 64 &&
             bs[2] == 0x80 + cp / 64 % 64 && bs[3] == 0x80 + cp % 64
    ensures DecodeChar(bs) == Some((cp as char, 4))
  {
    assert cp == cp / 64 * 64 + cp % 64;
    assert cp / 64 == cp / 64 / 64 * 64 + cp / 64 % 64;
    assert cp / 64 / 64 == cp / 64 / 64 / 64 * 64 + cp / 64 / 64 % 64;
  }

  /** UTF-8 decoding undoes UTF-8 encoding. */
  lemma {:induction false} Utf8RoundTrip(s: string)
    ensures Utf8Decode(Utf8(s)) == Some(s)
  {
    if |s| > 0 {
      var bs := Utf8(s);
      assert bs == Utf8Char(s[0]) + Utf8(s[1..]);
      DecodeEncodedChar(s[0], Utf8(s[1..]));
      assert bs[|Utf8Char(s[0])|..] == Utf8(s[1..]);
      Utf8RoundTrip(s[1..]);
      assert Utf8Decode(bs) == Some([s[0]] + s[1..]);
      assert [s[0]] + s[1..] == s;
    }
  }

  lemma {:induction false} Utf8Append(a: string, b: string)
    ensures Utf8(a + b) == Utf8(a) + Utf8(b)
  {
    if |a| > 0 {
      assert (a + b)[1..] == a[1..] + b;
      Utf8Append(a[1..], b);
    } else {
      assert a + b == b;
    }
  }

  // ---------------------------------------------------------------- Serializer

  /** An upper-case hexadecimal digit. */
  function HexChar(d: nat): (c: char)
    requires d < 16
    ensures ('0' <= c <= '9') || ('A' <= c <= 'F')
  {
    if d < 10 then (d + 0x30) as char else (d - 10 + 0x41) as char
  }

  /** Percent-encode after encoding, for one byte, with the form set and
      space-as-plus: a space becomes `+`, a byte outside the set stays as its
      character, any other byte becomes `%` and two upper-case hex digits. */
  function EncodeByte(b: Byte): (r: string)
    ensures 1 <= |r| <= 3
    ensures forall i :: 0 <= i < |r| ==> r[i] as int < 0x80 && r[i] != '&' && r[i] != '='
    ensures (|r| == 1) <==> (!InFormSet(b) || b == 0x20)
  {
    if b == 0x20 then "+"
    else if !InFormSet(b) then [b as char]
    else ['%', HexChar(b / 16), HexChar(b % 16)]
  }

  function EncodeBytes(bs: seq<Byte>): (r: string)
    ensures forall i :: 0 <= i < |r| ==> r[i] as int < 0x80 && r[i] != '&' && r[i] != '='
  {
    if |bs| == 0 then "" else EncodeByte(bs[0]) + EncodeBytes(bs[1..])
  }

  /** The serializer's encoding of one name or value: UTF-8, then
      percent-encoding. The result is ASCII and holds neither `&` nor `=`,
      so it cannot be confused with the separators. */
  function PercentEncode(s: string): (r: string)
    ensures '&' !in r && '=' !in r
    ensures forall i :: 0 <= i < |r| ==> r[i] as int < 0x80
  {
    EncodeBytes(Utf8(s))
  }

  function PairString(pair: Pair): (r: string)
    ensures '&' !in r && '=' in r
  {
    PercentEncode(pair.0) + "=" + PercentEncode(pair.1)
  }

  function PairStrings(pairs: seq<Pair>): (r: seq<string>)
    ensures |r| == |pairs|
    ensures forall i :: 0 <= i < |r| ==> '&' !in r[i] && '=' in r[i]
  {
    seq(|pairs|, i requires 0 <= i < |pairs| => PairString(pairs[i]))
  }

  /** Serializes the name-value list, pairs in list order, joined by `&`. */
  function Serialize(pairs: seq<Pair>): (r: string)
    ensures |pairs| == 0 ==> r == ""
  {
    Join(PairStrings(pairs), "&")
  }

  /** There is one `&` between each two consecutive pairs and none elsewhere. */
  lemma SerializeSeparators(pairs: seq<Pair>)
    requires |pairs| > 0
    ensures Split(Serialize(pairs), '&') == PairStrings(pairs)
    ensures multiset(Serialize(pairs))['&'] == |pairs| - 1
  {
    SplitJoin(PairStrings(pairs), '&');
    SplitCount(Serialize(pairs), '&');
  }

  // ---------------------------------------------------------------- Parser

  function HexDigitValue(b: Byte): (r: Option<nat>)
    ensures r.Some? ==> r.value < 16
  {
    if 0x30 <= b <= 0x39 then Some(b - 0x30)
    else if 0x41 <= b <= 0x46 then Some(b - 0x41 + 10)
    else if 0x61 <= b <= 0x66 then Some(b - 0x61 + 10)
    else None
  }

  /** Percent-decoding of section 1.3: `%` and two hex digits become the byte
      they spell; every other byte, a stray `%` included, is kept. */
  function PercentDecode(bs: seq<Byte>): (r: seq<Byte>)
    ensures |r| <= |bs|
    decreases |bs|
  {
    if |bs| == 0 then []
    else if bs[0] == 0x25 && |bs| >= 3 && HexDigitValue(bs[1]).Some? && HexDigitValue(bs[2]).Some? then
      [HexDigitValue(bs[1]).value * 16 + HexDigitValue(bs[2]).value] + PercentDecode(bs[3..])
    else [bs[0]] + PercentDecode(bs[1..])
  }

  function PlusToSpace(bs: seq<Byte>): (r: seq<Byte>)
    ensures |r| == |bs|
    ensures forall i :: 0 <= i < |bs| ==> r[i] == (if bs[i] == 0x2B then 0x20 else bs[i])
  {
    seq(|bs|, i requires 0 <= i < |bs| => if bs[i] == 0x2B then 0x20 else bs[i])
  }

  /** The parser's decoding of one name or value: `+` to space, then
      percent-decoding, then UTF-8 decoding. */
  function DecodeComponent(s: string): Option<string> {
    Utf8Decode(PercentDecode(PlusToSpace(Utf8(s))))
  }

  /** Cuts `s` at the first `c`. */
  function CutAtFirst(s: string, c: char): (r: (string, string))
    requires c in s
    ensures s == r.0 + [c] + r.1 && c !in r.0
  {
    if s[0] == c then ("", s[1..])
    else
      var (before, after) := CutAtFirst(s[1..], c);
      assert s == [s[0]] + s[1..];
      ([s[0]] + before, after)
  }

  /** One non-empty `&`-separated piece: the name runs to the first `=`, the
      value is the rest (empty when there is no `=`). */
  function ParsePiece(piece: string): (r: Option<Pair>)
    ensures r.Some? ==> DecodeComponent(if '=' in piece then CutAtFirst(piece, '=').0 else piece) == Some(r.value.0)
  {
    var (name, value) := if '=' in piece then CutAtFirst(piece, '=') else (piece, "");
    match (DecodeComponent(name), DecodeComponent(value))
    case (Some(n), Some(v)) => Some((n, v))
    case _ => None
  }

  function ParsePieces(pieces: seq<string>): (r: Option<seq<Pair>>)
    ensures r.Some? ==> |r.value| <= |pieces|
  {
    if |pieces| == 0 then Some([])
    else if pieces[0] == "" then ParsePieces(pieces[1..])
    else match (ParsePiece(pieces[0]), ParsePieces(pieces[1..]))
      case (Some(p), Some(rest)) => Some([p] + rest)
      case _ => None
  }

  /** The application/x-www-form-urlencoded parser of section 5.1, with the
      input split on `&` as a string: UTF-8 maps `&`, `=` and `+` to single
      bytes and never produces those bytes inside a longer sequence, so this
      is the same split as on the encoded bytes. */
  function Parse(query: string): (r: Option<seq<Pair>>)
    ensures r.Some? ==> |r.value| <= multiset(query)['&'] + 1
  {
    SplitCount(query, '&');
    ParsePieces(Split(query, '&'))
  }

  // ---------------------------------------------------------------- Round trip

  /** UTF-8 maps an ASCII string character by character to bytes. */
  lemma {:induction false} Utf8Ascii(s: string)
    requires forall i :: 0 <= i < |s| ==> s[i] as int < 0x80
    ensures |Utf8(s)| == |s|
    ensures forall i :: 0 <= i < |s| ==> Utf8(s)[i] == s[i] as int
  {
    if |s| > 0 {
      Utf8Ascii(s[1..]);
    }
  }

  lemma {:induction false} PlusToSpaceAppend(a: seq<Byte>, b: seq<Byte>)
    ensures PlusToSpace(a + b) == PlusToSpace(a) + PlusToSpace(b)
  {
  }

  lemma DecodeEncodedByte(b: Byte, rest: seq<Byte>)
    ensures PercentDecode(PlusToSpace(Utf8(EncodeByte(b))) + rest) == [b] + PercentDecode(rest)
  {
    var e := EncodeByte(b);
    var x := PlusToSpace(Utf8(e)) + rest;
    Utf8Ascii(e);
    if |e| == 1 {
      assert x[1..] == rest;
    } else {
      assert x[3..] == rest;
    }
  }

  lemma {:induction false} DecodeEncodedBytes(bs: seq<Byte>)
    ensures PercentDecode(PlusToSpace(Utf8(EncodeBytes(bs)))) == bs
  {
    if |bs| > 0 {
      var e := EncodeByte(bs[0]);
      var t := EncodeBytes(bs[1..]);
      Utf8Append(e, t);
      PlusToSpaceAppend(Utf8(e), Utf8(t));
      DecodeEncodedByte(bs[0], PlusToSpace(Utf8(t)));
      DecodeEncodedBytes(bs[1..]);
      assert [bs[0]] + bs[1..] == bs;
    }
  }

  /** Decoding a name or value undoes its encoding. */
  lemma ComponentRoundTrip(s: string)
    ensures DecodeComponent(PercentEncode(s)) == Some(s)
  {
    DecodeEncodedBytes(Utf8(s));
    Utf8RoundTrip(s);
  }

  lemma ParsePairString(pair: Pair)
    ensures ParsePiece(PairString(pair)) == Some(pair)
  {
    CutAtFirstUnique(PercentEncode(pair.0), PercentEncode(pair.1), '=');
    ComponentRoundTrip(pair.0);
    ComponentRoundTrip(pair.1);
  }

  lemma {:induction false} ParsePairStrings(pairs: seq<Pair>)
    ensures ParsePieces(PairStrings(pairs)) == Some(pairs)
  {
    if |pairs| > 0 {
      var pieces := PairStrings(pairs);
      ParsePairString(pairs[0]);
      assert pieces[1..] == PairStrings(pairs[1..]);
      ParsePairStrings(pairs[1..]);
      assert [pairs[0]] + pairs[1..] == pairs;
    }
  }

  lemma {:induction false} CutAtFirstUnique(a: string, b: string, c: char)
    requires c !in a
    ensures CutAtFirst(a + [c] + b, c) == (a, b)
  {
    var s := a + [c] + b;
    if |a| > 0 {
      assert s[1..] == a[1..] + [c] + b;
      CutAtFirstUnique(a[1..], b, c);
      assert [a[0]] + a[1..] == a;
    } else {
      assert s[1..] == b;
    }
  }

  /** Parsing a serialized list gives the list back: names and values may
      hold any characters, `&`, `=`, `+`, `%` and non-ASCII ones included. */
  lemma ParseSerialize(pairs: seq<Pair>)
    ensures Parse(Serialize(pairs)) == Some(pairs)
  {
    if |pairs| == 0 {
      SplitNoSeparator("", '&');
      assert ParsePieces([""]) == ParsePieces([]);
    } else {
      SerializeSeparators(pairs);
      ParsePairStrings(pairs);
    }
  }
}
