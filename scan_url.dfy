/** The URL the server puts into a QR code for a pending scan, and the way a reader
    of that URL gets the request back. `binNo` and `sku` are percent-encoded as
    `encodeURIComponent` does it (UTF-8 bytes as `%XY`, RFC 3986 section 2.1);
    `value` is inserted as it is. */
module ScanUrl {
  import opened Wrappers
  import opened Text
  import opened Numbers

  /** The port the server listens on. */
  const Port: nat := 3000

  type Byte = b: int | 0 <= b < 256

  /** The characters `encodeURIComponent` leaves alone: ASCII letters, digits and `-_.!~*'()`. */
  predicate IsUnreserved(c: char)
  {
    ('A' <= c <= 'Z') || ('a' <= c <= 'z') || ('0' <= c <= '9') || c in "-_.!~*'()"
  }

  /** An upper-case hexadecimal digit. */
  function HexDigit(d: int): (c: char)
    requires 0 <= d < 16
    ensures IsUnreserved(c)
  {
    if d < 10 then ('0' as int + d) as char else ('A' as int + d - 10) as char
  }

  /** The value of a hexadecimal digit of either case. */
  function HexValue(c: char): (r: Option<int>)
    ensures r.Some? ==> 0 <= r.value < 16
  {
    if '0' <= c <= '9' then Some(c as int - '0' as int)
    else if 'A' <= c <= 'F' then Some(c as int - 'A' as int + 10)
    else if 'a' <= c <= 'f' then Some(c as int - 'a' as int + 10)
    else None
  }

  /** `%XY` for one byte. */
  function PercentByte(b: Byte): string
  {
    ['%', HexDigit(b / 16), HexDigit(b % 16)]
  }

  function PercentBytes(bs: seq<Byte>): (s: string)
    ensures |s| == 3 * |bs|
    ensures forall i :: 0 <= i < |s| ==> IsUnreserved(s[i]) || s[i] == '%'
  {
    if bs == [] then "" else PercentByte(bs[0]) + PercentBytes(bs[1..])
  }

  /** The UTF-8 encoding of one code point (RFC 3629): six payload bits per
      continuation byte, the rest in the lead byte. */
  function Utf8(c: char): (bs: seq<Byte>)
    ensures 1 <= |bs| <= 4
  {
    var n := c as int;
    var m1 := n / 0x40;
    var m2 := m1 / 0x40;
    if n < 0x80 then [n]
    else if n < 0x800 then [0xC0 + m1, 0x80 + n % 0x40]
    else if n < 0x10000 then [0xE0 + m2, 0x80 + m1 % 0x40, 0x80 + n % 0x40]
    else [0xF0 + m2 / 0x40, 0x80 + m2 % 0x40, 0x80 + m1 % 0x40, 0x80 + n % 0x40]
  }

  function EncodeChar(c: char): string
  {
    if IsUnreserved(c) then [c] else PercentBytes(Utf8(c))
  }

  /** `encodeURIComponent(s)`: the result holds only unreserved characters and `%`,
      so in particular no `&`, `=`, `?` or `#`. The `URIError` JavaScript raises for a
      lone surrogate has no counterpart, since a Dafny `char` is never one. */
  function EncodeUriComponent(s: string): (r: string)
    ensures forall i :: 0 <= i < |r| ==> IsUnreserved(r[i]) || r[i] == '%'
    ensures |r| >= |s|
  {
    if s == [] then "" else EncodeChar(s[0]) + EncodeUriComponent(s[1..])
  }

  /** The byte of a `%XY` escape at the start of `s`. */
  function ReadByte(s: string): (r: Option<Byte>)
    ensures r.Some? ==> |s| >= 3 && s[0] == '%'
  {
    if |s| >= 3 && s[0] == '%' && HexValue(s[1]).Some? && HexValue(s[2]).Some? then
      Some(HexValue(s[1]).value * 16 + HexValue(s[2]).value)
    else None
  }

  /** The bytes of `n` consecutive `%XY` escapes at the start of `s`. */
  function ReadBytes(s: string, n: nat): (r: Option<seq<Byte>>)
    ensures r.Some? ==> |r.value| == n && 3 * n <= |s|
    decreases n
  {
    if n == 0 then Some([])
    else match ReadByte(s)
      case None => None
      case Some(b) =>
        match ReadBytes(s[3..], n - 1)
        case None => None
        case Some(rest) => Some([b] + rest)
  }

  /** The length of the UTF-8 sequence a lead byte starts, or 0 for a byte that cannot lead. */
  function Utf8Length(lead: Byte): nat
  {
    if lead < 0x80 then 1
    else if 0xC0 <= lead < 0xE0 then 2
    else if 0xE0 <= lead < 0xF0 then 3
    else if 0xF0 <= lead < 0xF8 then 4
    else 0
  }

  predicate IsContinuation(b: Byte) { 0x80 <= b < 0xC0 }

  /** The code point of a UTF-8 sequence; overlong forms, surrogates and values past
      U+10FFFF are refused. */
  function DecodeUtf8(bs: seq<Byte>): Option<char>
  {
    if |bs| == 1 && bs[0] < 0x80 then Some(bs[0] as char)
    else if |bs| == 2 && 0xC0 <= bs[0] < 0xE0 && IsContinuation(bs[1]) then
      var n := Bits(bs[0], 0xC0) * 0x40 + Bits(bs[1], 0x80);
      if n >= 0x80 then Some(n as char) else None
    else if |bs| == 3 && 0xE0 <= bs[0] < 0xF0 && IsContinuation(bs[1]) && IsContinuation(bs[2]) then
      var n := Bits(bs[0], 0xE0) * 0x1000 + Bits(bs[1], 0x80) * 0x40 + Bits(bs[2], 0x80);
      if n >= 0x800 && !(0xD800 <= n < 0xE000) then Some(n as char) else None
    else if |bs| == 4 && 0xF0 <= bs[0] < 0xF8 && IsContinuation(bs[1]) && IsContinuation(bs[2])
            && IsContinuation(bs[3]) then
      var n := Bits(bs[0], 0xF0) * 0x40000 + Bits(bs[1], 0x80) * 0x1000 + Bits(bs[2], 0x80) * 0x40 + Bits(bs[3], 0x80);
      if 0x10000 <= n < 0x110000 then Some(n as char) else None
    else None
  }

  /** The payload bits of a byte once its marker bits `marker` are taken off. */
  function Bits(b: Byte, marker: int): int
  {
    b as int - marker
  }

  /** `decodeURIComponent(s)`; `None` is the `URIError` thrown for a malformed escape. */
  function DecodeUriComponent(s: string): Option<string>
    decreases |s|
  {
    if s == [] then Some("")
    else if s[0] != '%' then
      match DecodeUriComponent(s[1..])
      case None => None
      case Some(rest) => Some([s[0]] + rest)
    else
      match ReadByte(s)
      case None => None
      case Some(lead) =>
        var n := Utf8Length(lead);
        if n == 0 then None
        else
          match ReadBytes(s, n)
          case None => None
          case Some(bs) =>
            match DecodeUtf8(bs)
            case None => None
            case Some(c) =>
              match DecodeUriComponent(s[3 * n..])
              case None => None
              case Some(rest) => Some([c] + rest)
  }

  lemma HexRoundTrip(d: int)
    requires 0 <= d < 16
    ensures HexValue(HexDigit(d)) == Some(d)
  {
  }

  lemma ReadPercentByte(b: Byte, t: string)
    ensures ReadByte(PercentByte(b) + t) == Some(b)
  {
    HexRoundTrip(b / 16);
    HexRoundTrip(b % 16);
  }

  /** Reading `|bs|` escapes back from their percent-encoding gives the bytes. */
  lemma {:induction false} ReadPercentBytes(bs: seq<Byte>, t: string)
    ensures ReadBytes(PercentBytes(bs) + t, |bs|) == Some(bs)
    decreases |bs|
  {
    if bs != [] {
      var s := PercentBytes(bs) + t;
      var tail := PercentBytes(bs[1..]) + t;
      assert s == PercentByte(bs[0]) + tail;
      ReadPercentByte(bs[0], tail);
      assert s[3..] == tail;
      ReadPercentBytes(bs[1..], t);
      ReadBytesStep(s, |bs|, bs[0], bs[1..]);
      assert bs == [bs[0]] + bs[1..];
    }
  }

  /** Reading `n` escapes is reading the first, then `n - 1` more after it. */
  lemma ReadBytesStep(s: string, n: nat, b: Byte, rest: seq<Byte>)
    requires n >= 1
    requires ReadByte(s) == Some(b)
    requires ReadBytes(s[3..], n - 1) == Some(rest)
    ensures ReadBytes(s, n) == Some([b] + rest)
  {
  }

  /** UTF-8 decoding undoes UTF-8 encoding, and the lead byte announces the length. */
  lemma Utf8RoundTrip(c: char)
    ensures Utf8Length(Utf8(c)[0]) == |Utf8(c)|
    ensures DecodeUtf8(Utf8(c)) == Some(c)
  {
    var n := c as int;
    var bs := Utf8(c);
    var m1 := n / 0x40;
    var m2 := m1 / 0x40;
    assert n == m1 * 0x40 + n % 0x40;
    assert m1 == m2 * 0x40 + m1 % 0x40;
    assert m2 == m2 / 0x40 * 0x40 + m2 % 0x40;
    if n < 0x80 {
    } else if n < 0x800 {
      assert Bits(bs[0], 0xC0) == m1 && Bits(bs[1], 0x80) == n % 0x40;
    } else if n < 0x10000 {
      assert Bits(bs[0], 0xE0) == m2 && Bits(bs[1], 0x80) == m1 % 0x40 && Bits(bs[2], 0x80) == n % 0x40;
    } else {
      assert Bits(bs[0], 0xF0) == m2 / 0x40 && Bits(bs[1], 0x80) == m2 % 0x40;
      assert Bits(bs[2], 0x80) == m1 % 0x40 && Bits(bs[3], 0x80) == n % 0x40;
    }
  }

  /** Decoding the encoding of one character, followed by anything, gives that
      character followed by the decoding of the rest. */
  lemma DecodeEncodeChar(c: char, t: string)
    ensures DecodeUriComponent(EncodeChar(c) + t) ==
            match DecodeUriComponent(t)
            case None => None
            case Some(rest) => Some([c] + rest)
  {
    var s := EncodeChar(c) + t;
    if IsUnreserved(c) {
      assert s[0] == c && s[1..] == t;
    } else {
      DecodeEscapedChar(c, t);
    }
  }

  lemma DecodeEscapedChar(c: char, t: string)
    requires !IsUnreserved(c)
    ensures DecodeUriComponent(PercentBytes(Utf8(c)) + t) ==
            match DecodeUriComponent(t)
            case None => None
            case Some(rest) => Some([c] + rest)
  {
    var bs := Utf8(c);
    var s := PercentBytes(bs) + t;
    Utf8RoundTrip(c);
    ReadPercentBytes(bs, t);
    ReadBytesHead(s, |bs|);
    assert s[3 * |bs|..] == t;
    DecodeAtEscape(s, bs, c);
  }

  /** The first of several escapes read is the one `ReadByte` reads. */
  lemma ReadBytesHead(s: string, n: nat)
    requires n >= 1 && ReadBytes(s, n).Some?
    ensures ReadByte(s) == Some(ReadBytes(s, n).value[0])
  {
  }

  /** One step of `decodeURIComponent` at an escape: when the escapes at the start of
      `s` spell out the UTF-8 bytes of `c`, the decoding is `c` followed by the rest. */
  lemma DecodeAtEscape(s: string, bs: seq<Byte>, c: char)
    requires |bs| >= 1
    requires ReadByte(s) == Some(bs[0])
    requires Utf8Length(bs[0]) == |bs|
    requires ReadBytes(s, |bs|) == Some(bs)
    requires DecodeUtf8(bs) == Some(c)
    ensures DecodeUriComponent(s) ==
            match DecodeUriComponent(s[3 * |bs|..])
            case None => None
            case Some(rest) => Some([c] + rest)
  {
    assert s != [] && s[0] == '%';
  }

  /** `decodeURIComponent(encodeURIComponent(s)) == s` for every string of Unicode
      scalar values (a Dafny `char` is never a lone surrogate). */
  lemma {:induction false} DecodeEncode(s: string)
    ensures DecodeUriComponent(EncodeUriComponent(s)) == Some(s)
    decreases |s|
  {
    if s != [] {
      DecodeEncodeChar(s[0], EncodeUriComponent(s[1..]));
      DecodeEncode(s[1..]);
      assert s == [s[0]] + s[1..];
    }
  }

  /** A string of unreserved characters is its own encoding. */
  lemma {:induction false} EncodeUnreserved(s: string)
    requires forall i :: 0 <= i < |s| ==> IsUnreserved(s[i])
    ensures EncodeUriComponent(s) == s
    decreases |s|
  {
    if s != [] {
      EncodeUnreserved(s[1..]);
      assert s == [s[0]] + s[1..];
    }
  }

  /** The query part: `binNo` and `sku` encoded, `value` as given. */
  function ScanQuery(binNo: string, sku: string, value: string): string
  {
    "binNo=" + EncodeUriComponent(binNo) + "&sku=" + EncodeUriComponent(sku) + "&value=" + value
  }

  /** The URL the QR code carries; `host` is the address the server found for itself. */
  function ScanUrl(host: string, binNo: string, sku: string, value: string): string
  {
    "http://" + host + ":" + NatToString(Port) + "/scan.html?" + ScanQuery(binNo, sku, value)
  }

  /** What follows the first `?` of a URL, or nothing when there is none. */
  function QueryOf(url: string): string
  {
    var parts := Split(url, '?');
    if |parts| == 1 then "" else Join(parts[1..], '?')
  }

  /** One `name=value` parameter, split at its first `=` and decoded. */
  function DecodeParam(p: string): Option<(string, string)>
  {
    var parts := Split(p, '=');
    var name, v := DecodeUriComponent(parts[0]), DecodeUriComponent(Join(parts[1..], '='));
    if name.Some? && v.Some? then Some((name.value, v.value)) else None
  }

  function DecodeParams(ps: seq<string>): Option<seq<(string, string)>>
  {
    if ps == [] then Some([])
    else
      var first, rest := DecodeParam(ps[0]), DecodeParams(ps[1..]);
      if first.Some? && rest.Some? then Some([first.value] + rest.value) else None
  }

  /** The parameters of a query string, in order, split on `&`. */
  function ParseQuery(q: string): Option<seq<(string, string)>>
  {
    DecodeParams(Split(q, '&'))
  }

  /** A parameter with an unreserved name and an encoded value without `=` reads back
      as the name and the decoded value. */
  lemma DecodeOneParam(name: string, encoded: string, decoded: string)
    requires forall i :: 0 <= i < |name| ==> IsUnreserved(name[i])
    requires '=' !in encoded
    requires DecodeUriComponent(encoded) == Some(decoded)
    ensures DecodeParam(name + "=" + encoded) == Some((name, decoded))
  {
    assert '=' !in name by {
      forall i | 0 <= i < |name| ensures name[i] != '=' { assert IsUnreserved(name[i]); }
    }
    SplitWithoutSep(name, '=');
    SplitWithoutSep(encoded, '=');
    SplitAppend(name, encoded, '=');
    assert name + "=" + encoded == name + ['='] + encoded;
    EncodeUnreserved(name);
    DecodeEncode(name);
  }

  /** The encoded text holds no `&`, `=` or `?`. */
  lemma EncodedHasNoDelimiters(s: string)
    ensures '&' !in EncodeUriComponent(s)
    ensures '=' !in EncodeUriComponent(s)
    ensures '?' !in EncodeUriComponent(s)
  {
    var e := EncodeUriComponent(s);
    forall i | 0 <= i < |e| ensures e[i] != '&' && e[i] != '=' && e[i] != '?' {
      assert IsUnreserved(e[i]) || e[i] == '%';
    }
  }

  /** The query of the scan URL is the query the server built, when the host holds no `?`. */
  lemma QueryOfScanUrl(host: string, binNo: string, sku: string, value: string)
    requires '?' !in host
    requires '?' !in value
    ensures QueryOf(ScanUrl(host, binNo, sku, value)) == ScanQuery(binNo, sku, value)
  {
    var digits := NatToString(Port);
    assert '?' !in digits by {
      forall i | 0 <= i < |digits| ensures digits[i] != '?' { assert IsDigit(digits[i]); }
    }
    var prefix := "http://" + host + ":" + digits + "/scan.html";
    assert '?' !in prefix;
    assert ScanUrl(host, binNo, sku, value) == prefix + ['?'] + ScanQuery(binNo, sku, value);
    QueryHasNoMark(binNo, sku, value);
    QueryAfterMark(prefix, ScanQuery(binNo, sku, value));
  }

  /** The query the server builds holds no `?` when `value` holds none. */
  lemma QueryHasNoMark(binNo: string, sku: string, value: string)
    requires '?' !in value
    ensures '?' !in ScanQuery(binNo, sku, value)
  {
    EncodedHasNoDelimiters(binNo);
    EncodedHasNoDelimiters(sku);
  }

  /** The query of `prefix?q`, when neither part holds a `?`, is `q`. */
  lemma QueryAfterMark(prefix: string, q: string)
    requires '?' !in prefix && '?' !in q
    ensures QueryOf(prefix + ['?'] + q) == q
  {
    SplitWithoutSep(prefix, '?');
    SplitWithoutSep(q, '?');
    SplitAppend(prefix, q, '?');
  }

  /** The query the server builds splits on `&` into its three `name=value` pieces. */
  lemma SplitScanQuery(binNo: string, sku: string, value: string)
    requires '&' !in value
    ensures Split(ScanQuery(binNo, sku, value), '&')
            == ["binNo=" + EncodeUriComponent(binNo), "sku=" + EncodeUriComponent(sku), "value=" + value]
  {
    var e1, e2 := EncodeUriComponent(binNo), EncodeUriComponent(sku);
    EncodedHasNoDelimiters(binNo);
    EncodedHasNoDelimiters(sku);
    assert '&' !in "binNo=" + e1 && '&' !in "sku=" + e2 && '&' !in "value=" + value;
    ScanQueryPieces(binNo, sku, value);
    SplitThree("binNo=" + e1, "sku=" + e2, "value=" + value, '&');
  }

  lemma ScanQueryPieces(binNo: string, sku: string, value: string)
    ensures ScanQuery(binNo, sku, value) ==
            ("binNo=" + EncodeUriComponent(binNo)) + ['&'] + ("sku=" + EncodeUriComponent(sku)) + ['&'] + ("value=" + value)
  {
    assert "&sku=" == ['&'] + "sku=";
    assert "&value=" == ['&'] + "value=";
  }

  /** Two separators between three separator-free pieces split into those pieces. */
  lemma SplitThree(a: string, b: string, c: string, sep: char)
    requires sep !in a && sep !in b && sep !in c
    ensures Split(a + [sep] + b + [sep] + c, sep) == [a, b, c]
  {
    SplitWithoutSep(a, sep);
    SplitWithoutSep(b, sep);
    SplitWithoutSep(c, sep);
    SplitAppend(b, c, sep);
    assert a + [sep] + b + [sep] + c == a + [sep] + (b + [sep] + c);
    SplitAppend(a, b + [sep] + c, sep);
  }

  /** The query the server builds reads back as its three parameters. */
  lemma ParseScanQuery(binNo: string, sku: string, value: string)
    requires forall i :: 0 <= i < |value| ==> IsUnreserved(value[i])
    ensures ParseQuery(ScanQuery(binNo, sku, value))
            == Some([("binNo", binNo), ("sku", sku), ("value", value)])
  {
    var a, b, c := "binNo=" + EncodeUriComponent(binNo), "sku=" + EncodeUriComponent(sku), "value=" + value;
    EncodeUnreserved(value);
    EncodedHasNoDelimiters(value);
    SplitScanQuery(binNo, sku, value);
    ScanParams(binNo, sku, value);
    DecodeThreeParams(a, b, c, ("binNo", binNo), ("sku", sku), ("value", value));
  }

  /** Each of the three pieces of the query decodes to its parameter. */
  lemma ScanParams(binNo: string, sku: string, value: string)
    requires forall i :: 0 <= i < |value| ==> IsUnreserved(value[i])
    ensures DecodeParam("binNo=" + EncodeUriComponent(binNo)) == Some(("binNo", binNo))
    ensures DecodeParam("sku=" + EncodeUriComponent(sku)) == Some(("sku", sku))
    ensures DecodeParam("value=" + value) == Some(("value", value))
  {
    BinNoParam(binNo);
    SkuParam(sku);
    ValueParam(value);
  }

  lemma BinNoParam(binNo: string)
    ensures DecodeParam("binNo=" + EncodeUriComponent(binNo)) == Some(("binNo", binNo))
  {
    NamedParam("binNo", binNo);
    assert "binNo" + "=" == "binNo=";
  }

  lemma SkuParam(sku: string)
    ensures DecodeParam("sku=" + EncodeUriComponent(sku)) == Some(("sku", sku))
  {
    NamedParam("sku", sku);
    assert "sku" + "=" == "sku=";
  }

  lemma ValueParam(value: string)
    requires forall i :: 0 <= i < |value| ==> IsUnreserved(value[i])
    ensures DecodeParam("value=" + value) == Some(("value", value))
  {
    EncodeUnreserved(value);
    NamedParam("value", value);
    assert "value" + "=" == "value=";
  }

  /** The piece `name=` followed by an encoded value, for the three names the server uses. */
  lemma NamedParam(name: string, s: string)
    requires name == "binNo" || name == "sku" || name == "value"
    ensures DecodeParam(name + "=" + EncodeUriComponent(s)) == Some((name, s))
  {
    assert forall i :: 0 <= i < |name| ==> IsUnreserved(name[i]);
    EncodedParam(name, s);
  }

  /** An encoded parameter value reads back as the original string. */
  lemma EncodedParam(name: string, s: string)
    requires forall i :: 0 <= i < |name| ==> IsUnreserved(name[i])
    ensures DecodeParam(name + "=" + EncodeUriComponent(s)) == Some((name, s))
  {
    EncodedHasNoDelimiters(s);
    DecodeEncode(s);
    DecodeOneParam(name, EncodeUriComponent(s), s);
  }

  lemma DecodeThreeParams(a: string, b: string, c: string, pa: (string, string), pb: (string, string), pc: (string, string))
    requires DecodeParam(a) == Some(pa) && DecodeParam(b) == Some(pb) && DecodeParam(c) == Some(pc)
    ensures DecodeParams([a, b, c]) == Some([pa, pb, pc])
  {
    assert [c][1..] == [] && [pc] + [] == [pc];
    assert DecodeParams([c]) == Some([pc]);
    assert [b, c][1..] == [c] && [pb] + [pc] == [pb, pc];
    assert DecodeParams([b, c]) == Some([pb, pc]);
    assert [a, b, c][1..] == [b, c] && [pa] + [pb, pc] == [pa, pb, pc];
  }

  /** Decoding parameters one more parameter at the end appends its decoding. */
  lemma {:induction false} DecodeParamsSnoc(ps: seq<string>, p: string)
    requires DecodeParams(ps).Some? && DecodeParam(p).Some?
    ensures DecodeParams(ps + [p]) == Some(DecodeParams(ps).value + [DecodeParam(p).value])
    decreases |ps|
  {
    if ps == [] {
      assert ps + [p] == [p] && [p][1..] == [];
      assert DecodeParams([p]) == Some([DecodeParam(p).value] + []);
      assert [DecodeParam(p).value] + [] == [DecodeParam(p).value];
      assert DecodeParams(ps).value + [DecodeParam(p).value] == [DecodeParam(p).value];
    } else {
      assert (ps + [p])[0] == ps[0];
      assert (ps + [p])[1..] == ps[1..] + [p];
      DecodeParamsSnoc(ps[1..], p);
      var first, rest, last := DecodeParam(ps[0]).value, DecodeParams(ps[1..]).value, DecodeParam(p).value;
      assert [first] + (rest + [last]) == ([first] + rest) + [last];
    }
  }

  /** `value` is not encoded: an `&` in it starts a parameter of its own. For a value
      `v1 + "&" + v2` the reader sees `value` as `v1` and a fourth parameter named `v2`. */
  lemma UnencodedValueSplits(binNo: string, sku: string, v1: string, v2: string)
    requires forall i :: 0 <= i < |v1| ==> IsUnreserved(v1[i])
    requires forall i :: 0 <= i < |v2| ==> IsUnreserved(v2[i])
    ensures ParseQuery(ScanQuery(binNo, sku, v1 + "&" + v2))
            == Some([("binNo", binNo), ("sku", sku), ("value", v1), (v2, "")])
  {
    assert ScanQuery(binNo, sku, v1 + "&" + v2) == ScanQuery(binNo, sku, v1) + ['&'] + v2;
    EncodeUnreserved(v2);
    EncodedHasNoDelimiters(v2);
    SplitAppend(ScanQuery(binNo, sku, v1), v2, '&');
    SplitWithoutSep(v2, '&');
    ParseScanQuery(binNo, sku, v1);
    SplitWithoutSep(v2, '=');
    DecodeEncode(v2);
    assert DecodeUriComponent("") == Some("");
    assert DecodeParam(v2) == Some((v2, ""));
    DecodeParamsSnoc(Split(ScanQuery(binNo, sku, v1), '&'), v2);
    assert [("binNo", binNo), ("sku", sku), ("value", v1)] + [(v2, "")]
        == [("binNo", binNo), ("sku", sku), ("value", v1), (v2, "")];
  }

  /** Reading the scan URL back gives exactly the three parameters the server put in,
      whatever `binNo` and `sku` contain, as long as `value` is made of unreserved
      characters (a number is) and the host holds no `?`. */
  lemma ScanUrlRoundTrip(host: string, binNo: string, sku: string, value: string)
    requires '?' !in host
    requires forall i :: 0 <= i < |value| ==> IsUnreserved(value[i])
    ensures ParseQuery(QueryOf(ScanUrl(host, binNo, sku, value)))
            == Some([("binNo", binNo), ("sku", sku), ("value", value)])
  {
    EncodeUnreserved(value);
    EncodedHasNoDelimiters(value);
    QueryOfScanUrl(host, binNo, sku, value);
    ParseScanQuery(binNo, sku, value);
  }

}
