/**
 * decodePercent: the application/x-www-form-urlencoded decoding rules of
 * URLDecoder.decode (section 2.1 of RFC 3986 for %XX escapes, section
 * 17.13.4.1 of HTML 4.01 for '+' standing for a space), together with the
 * matching encoder as its partner.
 *
 * An escape %XX yields the character whose code is XX; the source reassembles
 * runs of escapes as UTF-8, which this model does not. The two agree on
 * escapes below %80, so the encoder is given ASCII text only: for it the
 * round trip holds in the source as well.
 */
module Percent {
  import opened Common
  import opened Text

  predicate IsHex(c: char) {
    ('0' <= c <= '9') || ('a' <= c <= 'f') || ('A' <= c <= 'F')
  }

  function HexValue(c: char): (v: nat)
    requires IsHex(c)
    ensures v < 16
  {
    if '0' <= c <= '9' then c as int - '0' as int
    else if 'a' <= c <= 'f' then c as int - 'a' as int + 10
    else c as int - 'A' as int + 10
  }

  /**
   * URLDecoder.decode: '+' becomes a space, %XX becomes the character with
   * code XX, every other character stands for itself. A '%' without two hex
   * digits after it makes the decoder throw IllegalArgumentException: None.
   */
  function Decode(s: string): (r: Option<string>)
    ensures r.Some? ==> |r.value| <= |s|
  {
    if s == [] then Some([])
    else if s[0] == '%' then
      if |s| >= 3 && IsHex(s[1]) && IsHex(s[2]) then
        match Decode(s[3..])
        case None => None
        case Some(t) => Some([(16 * HexValue(s[1]) + HexValue(s[2])) as char] + t)
      else None
    else
      match Decode(s[1..])
      case None => None
      case Some(t) => Some([if s[0] == '+' then ' ' else s[0]] + t)
  }

  /** Text free of '%' and '+' comes back unchanged: decoding it again is a no-op. */
  lemma {:induction false} DecodePlain(s: string)
    requires '%' !in s && '+' !in s
    ensures Decode(s) == Some(s)
  {
    if s != [] {
      assert '%' !in s[1..] && '+' !in s[1..];
      DecodePlain(s[1..]);
      assert s == [s[0]] + s[1..];
    }
  }

  function PlusAsSpace(c: char): char {
    if c == '+' then ' ' else c
  }

  /**
   * Without escapes, decoding only turns each '+' into a space. The path is
   * decoded by the same function, so a '+' in a path becomes a space too.
   */
  lemma {:induction false} DecodeWithoutEscapes(s: string)
    requires '%' !in s
    ensures Decode(s).Some?
    ensures |Decode(s).value| == |s|
    ensures forall i :: 0 <= i < |s| ==> Decode(s).value[i] == PlusAsSpace(s[i])
  {
    if s != [] {
      assert '%' !in s[1..];
      DecodeWithoutEscapes(s[1..]);
      var t := Decode(s[1..]).value;
      assert Decode(s).value == [PlusAsSpace(s[0])] + t;
    }
  }

  /** Characters URLEncoder leaves as they are. */
  predicate IsUnreserved(c: char) {
    ('a' <= c <= 'z') || ('A' <= c <= 'Z') || ('0' <= c <= '9') ||
    c == '-' || c == '_' || c == '.' || c == '*'
  }

  function HexDigit(d: nat): (c: char)
    requires d < 16
    ensures IsHex(c) && HexValue(c) == d
  {
    if d < 10 then ('0' as int + d) as char else ('A' as int + d - 10) as char
  }

  function EncodeChar(c: char): (e: string)
    requires c as int < 0x80
  {
    if IsUnreserved(c) then [c]
    else if c == ' ' then "+"
    else ['%', HexDigit(c as int / 16), HexDigit(c as int % 16)]
  }

  /** The encoder whose output Decode maps back (the form URLEncoder produces). */
  function Encode(s: string): (e: string)
    requires IsAscii(s)
    ensures s != [] ==> e != []
  {
    if s == [] then [] else EncodeChar(s[0]) + Encode(s[1..])
  }

  /** Characters an encoded string can hold. */
  predicate IsEncodedChar(c: char) {
    IsUnreserved(c) || c == '+' || c == '%'
  }

  /** Decoding undoes encoding for every ASCII string. */
  lemma {:induction false} DecodeEncode(s: string)
    requires IsAscii(s)
    ensures Decode(Encode(s)) == Some(s)
  {
    if s != [] {
      DecodeEncode(s[1..]);
      DecodeEncodedHead(s[0], Encode(s[1..]));
      assert s == [s[0]] + s[1..];
    }
  }

  /** Decoding one encoded character in front of more text. */
  lemma DecodeEncodedHead(c: char, rest: string)
    requires c as int < 0x80
    ensures Decode(EncodeChar(c) + rest) == match Decode(rest)
                                            case None => None
                                            case Some(t) => Some([c] + t)
  {
    var e := EncodeChar(c) + rest;
    if IsUnreserved(c) || c == ' ' {
      assert e[1..] == rest;
    } else {
      assert e[3..] == rest;
      assert (16 * (c as int / 16) + c as int % 16) as char == c;
    }
  }

  /** Encoded text holds no whitespace and none of '&', '=', '?'. */
  lemma {:induction false} EncodeAlphabet(s: string)
    requires IsAscii(s)
    ensures forall i :: 0 <= i < |Encode(s)| ==> IsEncodedChar(Encode(s)[i])
  {
    if s != [] {
      EncodeAlphabet(s[1..]);
      var e := Encode(s);
      var h := EncodeChar(s[0]);
      assert e == h + Encode(s[1..]);
      forall i | 0 <= i < |e| ensures IsEncodedChar(e[i]) {
        if i >= |h| {
          assert e[i] == Encode(s[1..])[i - |h|];
        }
      }
    }
  }

  /** No encoded character is a delimiter of the request line or of the query. */
  lemma EncodedCharIsNoDelimiter(c: char)
    requires IsEncodedChar(c)
    ensures c !in Whitespace && c != '&' && c != '=' && c != '?' && c != ':'
  {
  }
}
