/**
 * `encodeURIComponent` (ECMAScript's percent-encoding of a string's UTF-8
 * octets, section 2.1 of RFC 3986) and the `.replace(/%20/g, '+')` the
 * signature builder applies to its result, together with the decoding that
 * undoes both.
 */
module UriEncoding {
  import opened Wrappers
  import opened JsStrings

  type byte = x: int | 0 <= x < 0x100

  /** The characters `encodeURIComponent` leaves unescaped: ASCII letters, digits and - _ . ! ~ * ' ( ). */
  predicate IsUnescaped(c: char)
  {
    ('a' <= c <= 'z') || ('A' <= c <= 'Z') || ('0' <= c <= '9')
    || c == '-' || c == '_' || c == '.' || c == '!' || c == '~' || c == '*' || c == '\'' || c == '(' || c == ')'
  }

  /** The UTF-8 octets of one Unicode scalar value, six bits per continuation octet. */
  function Utf8(c: char): (b: seq<byte>)
    ensures 1 <= |b| <= 4
    ensures |b| == 1 <==> c as int < 0x80
    ensures |b| == 1 ==> b[0] == c as int
    ensures |b| > 1 ==> forall i :: 0 <= i < |b| ==> b[i] >= 0x80
  {
    var n := c as int;
    if n < 0x80 then [n]
    else
      var q1, r1 := n / 64, n % 64;
      if n < 0x800 then [0xC0 + q1, 0x80 + r1]
      else
        var q2, r2 := q1 / 64, q1 % 64;
        if n < 0x1_0000 then [0xE0 + q2, 0x80 + r2, 0x80 + r1]
        else
          var q3, r3 := q2 / 64, q2 % 64;
          [0xF0 + q3, 0x80 + r3, 0x80 + r2, 0x80 + r1]
  }

  /** The UTF-8 octets of a whole string. */
  function Utf8String(s: string): seq<byte>
  {
    if s == [] then [] else Utf8(s[0]) + Utf8String(s[1..])
  }

  /** One octet as `%HH`, upper-case hexadecimal digits. */
  function PercentOctet(b: byte): (r: string)
    ensures |r| == 3 && r[0] == '%'
  {
    ['%', HexDigitsUpper[b / 16], HexDigitsUpper[b % 16]]
  }

  function PercentOctets(bs: seq<byte>): (r: string)
    ensures |r| == 3 * |bs|
  {
    if bs == [] then [] else PercentOctet(bs[0]) + PercentOctets(bs[1..])
  }

  /** How `encodeURIComponent` writes one character. */
  function EncodeChar(c: char): string
  {
    if IsUnescaped(c) then [c] else PercentOctets(Utf8(c))
  }

  /** `encodeURIComponent(s)`; it never throws here, since a string holds no lone surrogate. */
  function EncodeUriComponent(s: string): string
  {
    if s == [] then [] else EncodeChar(s[0]) + EncodeUriComponent(s[1..])
  }

  /** `s.replace(/%20/g, '+')`: every `%20`, scanning left to right, becomes `+`. */
  function ReplacePct20(s: string): string
  {
    if s == [] then []
    else if |s| >= 3 && s[0] == '%' && s[1] == '2' && s[2] == '0' then "+" + ReplacePct20(s[3..])
    else [s[0]] + ReplacePct20(s[1..])
  }

  /** What the signature builder writes for a value: `encodeURIComponent(v).replace(/%20/g, '+')`. */
  function FormEncode(v: string): string
  {
    ReplacePct20(EncodeUriComponent(v))
  }

  /** Reference definition, character by character: a space becomes `+`, every other character is encoded as usual. */
  function FormEncodeChar(c: char): string
  {
    if c == ' ' then "+" else EncodeChar(c)
  }

  function FormEncodeSpec(v: string): string
  {
    if v == [] then [] else FormEncodeChar(v[0]) + FormEncodeSpec(v[1..])
  }

  /** An escape other than `%20` passes through the replacement unchanged. */
  lemma ReplaceSkipsEscape(h: char, l: char, t: string)
    requires h != '%' && l != '%' && !(h == '2' && l == '0')
    ensures ReplacePct20(['%', h, l] + t) == ['%', h, l] + ReplacePct20(t)
  {
    var s, s1, s2 := ['%', h, l] + t, [h, l] + t, [l] + t;
    assert s[0] == '%' && s[1] == h && s[2] == l && s[1..] == s1;
    assert s1[0] == h && s1[1..] == s2;
    assert s2[0] == l && s2[1..] == t;
    calc {
      ReplacePct20(s);
      [s[0]] + ReplacePct20(s1);
      [s[0]] + ([s1[0]] + ReplacePct20(s2));
      [s[0]] + ([s1[0]] + ([s2[0]] + ReplacePct20(t)));
      ['%', h, l] + ReplacePct20(t);
    }
  }

  /** The escape of any octet but 0x20 is neither `%20` nor contains a second `%`. */
  lemma EscapeIsNotSpace(b: byte)
    requires b != 0x20
    ensures var e := PercentOctet(b);
      e[1] != '%' && e[2] != '%' && !(e[1] == '2' && e[2] == '0')
  {
  }

  lemma Associative(a: string, b: string, c: string)
    ensures (a + b) + c == a + (b + c)
  {
  }

  /** The escape of an octet other than 0x20 passes through the replacement unchanged. */
  lemma ReplaceSkipsOctet(b: byte, t: string)
    requires b != 0x20
    ensures ReplacePct20(PercentOctet(b) + t) == PercentOctet(b) + ReplacePct20(t)
  {
    var e := PercentOctet(b);
    EscapeIsNotSpace(b);
    assert e == ['%', e[1], e[2]];
    ReplaceSkipsEscape(e[1], e[2], t);
  }

  /** No `%20` can start inside an escape for an octet other than 0x20. */
  lemma {:induction false} ReplaceSkipsOctets(bs: seq<byte>, rest: string)
    requires forall i :: 0 <= i < |bs| ==> bs[i] != 0x20
    ensures ReplacePct20(PercentOctets(bs) + rest) == PercentOctets(bs) + ReplacePct20(rest)
  {
    if bs != [] {
      var e, p := PercentOctet(bs[0]), PercentOctets(bs[1..]);
      assert PercentOctets(bs) == e + p;
      Associative(e, p, rest);
      ReplaceSkipsOctet(bs[0], p + rest);
      ReplaceSkipsOctets(bs[1..], rest);
      Associative(e, p, ReplacePct20(rest));
    } else {
      assert PercentOctets(bs) + rest == rest;
    }
  }

  lemma ReplaceOneChar(c: char, rest: string)
    ensures ReplacePct20(EncodeChar(c) + rest) == FormEncodeChar(c) + ReplacePct20(rest)
  {
    if IsUnescaped(c) {
      assert ([c] + rest)[1..] == rest;
    } else if c == ' ' {
      assert EncodeChar(c) == "%20";
      assert ("%20" + rest)[3..] == rest;
    } else {
      ReplaceSkipsOctets(Utf8(c), rest);
    }
  }

  /**
   * The source's two-step encoding agrees with the per-character reference:
   * only the escapes of spaces are rewritten, never a `%20`-looking run that
   * straddles two escapes.
   */
  lemma {:induction false} FormEncodeIsPerCharacter(v: string)
    ensures FormEncode(v) == FormEncodeSpec(v)
  {
    if v != [] {
      FormEncodeIsPerCharacter(v[1..]);
      ReplaceOneChar(v[0], EncodeUriComponent(v[1..]));
    }
  }

  /** The characters an encoded value may hold. */
  predicate IsFormChar(c: char)
  {
    IsUnescaped(c) || c == '%' || c == '+' || ('A' <= c <= 'F')
  }

  predicate AllFormChars(s: string)
  {
    forall i :: 0 <= i < |s| ==> IsFormChar(s[i])
  }

  lemma ConcatFormChars(a: string, b: string)
    requires AllFormChars(a) && AllFormChars(b)
    ensures AllFormChars(a + b)
  {
  }

  lemma OctetFormChars(b: byte)
    ensures AllFormChars(PercentOctet(b))
  {
  }

  lemma {:induction false} PercentOctetsAlphabet(bs: seq<byte>)
    ensures AllFormChars(PercentOctets(bs))
  {
    if bs != [] {
      PercentOctetsAlphabet(bs[1..]);
      OctetFormChars(bs[0]);
      ConcatFormChars(PercentOctet(bs[0]), PercentOctets(bs[1..]));
    }
  }

  /**
   * An encoded value is made of unescaped characters, `%`, `+` and hex
   * digits only: it never holds a raw space, `&` or `=`, so it cannot break
   * the `key=value&...` structure it is placed in.
   */
  lemma {:induction false} FormEncodeAlphabet(v: string)
    ensures AllFormChars(FormEncode(v))
    ensures ' ' !in FormEncode(v) && '&' !in FormEncode(v) && '=' !in FormEncode(v)
  {
    FormEncodeIsPerCharacter(v);
    SpecAlphabet(v);
  }

  lemma {:induction false} SpecAlphabet(v: string)
    ensures AllFormChars(FormEncodeSpec(v))
  {
    if v != [] {
      SpecAlphabet(v[1..]);
      if !IsUnescaped(v[0]) && v[0] != ' ' {
        PercentOctetsAlphabet(Utf8(v[0]));
      }
      ConcatFormChars(FormEncodeChar(v[0]), FormEncodeSpec(v[1..]));
    }
  }

  // ---------------------------------------------------------------------
  // Decoding: the partner that shows the encoding loses nothing.
  // ---------------------------------------------------------------------

  function HexValue(c: char): Option<nat>
  {
    if '0' <= c <= '9' then Some(c as int - '0' as int)
    else if 'A' <= c <= 'F' then Some(c as int - 'A' as int + 10)
    else if 'a' <= c <= 'f' then Some(c as int - 'a' as int + 10)
    else None
  }

  function Prepend(bs: seq<byte>, r: Option<seq<byte>>): Option<seq<byte>>
  {
    if r.Some? then Some(bs + r.value) else None
  }

  /**
   * Form decoding to octets: `+` is a space, `%HH` is one octet (either
   * digit case), an unescaped character stands for itself; anything else is malformed.
   */
  function FormDecode(s: string): Option<seq<byte>>
  {
    if s == [] then Some([])
    else if s[0] == '+' then Prepend([0x20], FormDecode(s[1..]))
    else if s[0] == '%' then
      if |s| >= 3 && HexValue(s[1]).Some? && HexValue(s[2]).Some? && HexValue(s[1]).value < 16 && HexValue(s[2]).value < 16
      then Prepend([HexValue(s[1]).value * 16 + HexValue(s[2]).value], FormDecode(s[3..]))
      else None
    else if IsUnescaped(s[0]) then Prepend([s[0] as int], FormDecode(s[1..]))
    else None
  }

  lemma HexValueOfDigit(d: nat)
    requires d < 16
    ensures HexValue(HexDigitsUpper[d]) == Some(d)
  {
  }

  /** One escape decodes to its octet. */
  lemma DecodeOneOctet(b: byte, t: string)
    ensures FormDecode(PercentOctet(b) + t) == Prepend([b], FormDecode(t))
  {
    HexValueOfDigit(b / 16);
    HexValueOfDigit(b % 16);
    var s := PercentOctet(b) + t;
    assert s[0] == '%' && s[1] == HexDigitsUpper[b / 16] && s[2] == HexDigitsUpper[b % 16] && s[3..] == t;
    assert b / 16 * 16 + b % 16 == b;
  }

  lemma PrependTwice(b: byte, bs: seq<byte>, r: Option<seq<byte>>)
    ensures Prepend([b], Prepend(bs, r)) == Prepend([b] + bs, r)
  {
    if r.Some? {
      assert [b] + (bs + r.value) == ([b] + bs) + r.value;
    }
  }

  lemma {:induction false} DecodePercentOctets(bs: seq<byte>, rest: string)
    ensures FormDecode(PercentOctets(bs) + rest) == Prepend(bs, FormDecode(rest))
  {
    if bs != [] {
      var t := PercentOctets(bs[1..]) + rest;
      assert PercentOctets(bs) + rest == PercentOctet(bs[0]) + t;
      DecodeOneOctet(bs[0], t);
      DecodePercentOctets(bs[1..], rest);
      PrependTwice(bs[0], bs[1..], FormDecode(rest));
      assert [bs[0]] + bs[1..] == bs;
    } else {
      assert PercentOctets(bs) + rest == rest;
      assert FormDecode(rest).Some? ==> bs + FormDecode(rest).value == FormDecode(rest).value;
    }
  }


  lemma DecodeOneChar(c: char, rest: string)
    ensures FormDecode(FormEncodeChar(c) + rest) == Prepend(Utf8(c), FormDecode(rest))
  {
    if c == ' ' {
      assert ("+" + rest)[1..] == rest;
    } else if IsUnescaped(c) {
      assert ([c] + rest)[1..] == rest;
    } else {
      DecodePercentOctets(Utf8(c), rest);
    }
  }

  /** Decoding an encoded value gives back the UTF-8 octets of the value. */
  lemma {:induction false} FormDecodeOfEncode(v: string)
    ensures FormDecode(FormEncode(v)) == Some(Utf8String(v))
  {
    FormEncodeIsPerCharacter(v);
    DecodeSpec(v);
  }

  lemma {:induction false} DecodeSpec(v: string)
    ensures FormDecode(FormEncodeSpec(v)) == Some(Utf8String(v))
  {
    if v != [] {
      DecodeSpec(v[1..]);
      DecodeOneChar(v[0], FormEncodeSpec(v[1..]));
    }
  }

  // ---------------------------------------------------------------------
  // UTF-8 decoding (strict: no overlong forms, no surrogates).
  // ---------------------------------------------------------------------

  predicate IsContinuation(b: byte)
  {
    0x80 <= b < 0xC0
  }

  /** The octet at `i`, or 0 past the end. */
  function Octet(bs: seq<byte>, i: nat): int
  {
    if i < |bs| then bs[i] as int else 0
  }

  /** The first scalar value of `bs` and the number of octets it takes, if well formed. */
  function DecodeFirst(bs: seq<byte>): (r: Option<(char, nat)>)
    requires bs != []
    ensures r.Some? ==> 1 <= r.value.1 <= |bs|
  {
    var b0, b1, b2, b3 := bs[0] as int, Octet(bs, 1), Octet(bs, 2), Octet(bs, 3);
    if b0 < 0x80 then Some((b0 as char, 1))
    else if 0xC0 <= b0 < 0xE0 then
      if |bs| >= 2 && IsContinuation(bs[1]) then
        var n := (b0 - 0xC0) * 64 + (b1 - 0x80);
        if 0x80 <= n then Some((n as char, 2)) else None
      else None
    else if 0xE0 <= b0 < 0xF0 then
      if |bs| >= 3 && IsContinuation(bs[1]) && IsContinuation(bs[2]) then
        var n := ((b0 - 0xE0) * 64 + (b1 - 0x80)) * 64 + (b2 - 0x80);
        if 0x800 <= n && !(0xD800 <= n < 0xE000) then Some((n as char, 3)) else None
      else None
    else if 0xF0 <= b0 < 0xF8 then
      if |bs| >= 4 && IsContinuation(bs[1]) && IsContinuation(bs[2]) && IsContinuation(bs[3]) then
        var n := (((b0 - 0xF0) * 64 + (b1 - 0x80)) * 64 + (b2 - 0x80)) * 64 + (b3 - 0x80);
        if 0x1_0000 <= n < 0x11_0000 then Some((n as char, 4)) else None
      else None
    else None
  }

  function Utf8Decode(bs: seq<byte>): Option<string>
    decreases |bs|
  {
    if bs == [] then Some([])
    else
      match DecodeFirst(bs)
      case None => None
      case Some((c, k)) =>
        match Utf8Decode(bs[k..])
        case None => None
        case Some(s) => Some([c] + s)
  }

  lemma DecodeFirstOfUtf8(c: char, rest: seq<byte>)
    ensures DecodeFirst(Utf8(c) + rest) == Some((c, |Utf8(c)|))
  {
  }

  /** Strict UTF-8 decoding undoes the encoding. */
  lemma {:induction false} Utf8RoundTrip(s: string)
    ensures Utf8Decode(Utf8String(s)) == Some(s)
  {
    if s != [] {
      var bs := Utf8String(s);
      DecodeFirstOfUtf8(s[0], Utf8String(s[1..]));
      assert bs[|Utf8(s[0])|..] == Utf8String(s[1..]);
      Utf8RoundTrip(s[1..]);
      assert s == [s[0]] + s[1..];
    }
  }

  /** Hence `FormEncode` is injective: two values with the same encoding are the same value. */
  lemma FormEncodeInjective(v: string, w: string)
    requires FormEncode(v) == FormEncode(w)
    ensures v == w
  {
    FormDecodeOfEncode(v);
    FormDecodeOfEncode(w);
    Utf8RoundTrip(v);
    Utf8RoundTrip(w);
  }
}
