/**
 * The encoder the service applies to every parameter name, every value and
 * the signature: PHP's `rawurlencode` followed by rewriting `%7E` back to
 * `~`. It is shown equal to percent-encoding as section 2.1 of RFC 3986
 * defines it over the unreserved set of section 2.3, and to be undone by
 * `rawurldecode`.
 */
module PercentEncoding {
  import opened PhpStrings

  predicate IsAlphaNum(b: Byte)
  {
    'A' <= b <= 'Z' || 'a' <= b <= 'z' || '0' <= b <= '9'
  }

  /** The unreserved characters of section 2.3 of RFC 3986. */
  predicate IsUnreserved(b: Byte)
  {
    IsAlphaNum(b) || b == '-' || b == '.' || b == '_' || b == '~'
  }

  predicate IsUpperHex(b: Byte)
  {
    '0' <= b <= '9' || 'A' <= b <= 'F'
  }

  /** What `rawurldecode` accepts as a hex digit (either case). */
  predicate IsHex(b: Byte)
  {
    IsUpperHex(b) || 'a' <= b <= 'f'
  }

  function HexValue(b: Byte): (n: int)
    requires IsHex(b)
    ensures 0 <= n < 16
  {
    if '0' <= b <= '9' then b as int - '0' as int
    else if 'A' <= b <= 'F' then b as int - 'A' as int + 10
    else b as int - 'a' as int + 10
  }

  /** The upper-case hex digit of a nibble; `HexValue` reads it back. */
  function HexDigit(n: int): (b: Byte)
    requires 0 <= n < 16
    ensures IsUpperHex(b) && HexValue(b) == n
  {
    if n < 10 then ('0' as int + n) as char else ('A' as int + n - 10) as char
  }

  /** `%XX` with upper-case hex digits, section 2.1 of RFC 3986. */
  function Escape(b: Byte): (t: Bytes)
    ensures |t| == 3 && t[0] == '%' && IsUpperHex(t[1]) && IsUpperHex(t[2])
    ensures HexValue(t[1]) * 16 + HexValue(t[2]) == b as int
  {
    ['%', HexDigit(b as int / 16), HexDigit(b as int % 16)]
  }

  /** PHP's `rawurlencode` in the form that makes the service's `%7E` fixup
      necessary (PHP before 5.3): only `A-Z a-z 0-9 - _ .` pass, so `~`
      comes out as `%7E`. */
  function RawUrlEncode(s: Bytes): Bytes
  {
    if s == [] then []
    else (if IsAlphaNum(s[0]) || s[0] in "-_." then [s[0]] else Escape(s[0])) + RawUrlEncode(s[1..])
  }

  /** The escape of `~`, and what the service's encoder turns it back into. */
  const EscapedTilde: Bytes := "%7E"
  const Tilde: Bytes := "~"

  /** The service's encoder: `str_replace('%7E', '~', rawurlencode(s))`. */
  function Encode(s: Bytes): Bytes
  {
    StrReplace(EscapedTilde, Tilde, RawUrlEncode(s))
  }

  /** Reference encoding: every byte outside the unreserved set becomes
      `%XX`, every unreserved byte stays (this is also what `rawurlencode`
      does from PHP 5.3 on). */
  function PercentEncode(s: Bytes): (t: Bytes)
    ensures |s| <= |t| <= 3 * |s|
  {
    if s == [] then []
    else (if IsUnreserved(s[0]) then [s[0]] else Escape(s[0])) + PercentEncode(s[1..])
  }

  /** PHP's `rawurldecode`: `%` and two hex digits of either case become one
      byte; anything else, a malformed `%` included, is copied. */
  function PercentDecode(t: Bytes): Bytes
    decreases |t|
  {
    if t == [] then []
    else if t[0] == '%' && |t| >= 3 && IsHex(t[1]) && IsHex(t[2]) then
      [(HexValue(t[1]) * 16 + HexValue(t[2])) as char] + PercentDecode(t[3..])
    else [t[0]] + PercentDecode(t[1..])
  }

  /** Output alphabet of the encoder: unreserved bytes, and `%` always
      followed by two upper-case hex digits that are not `7E`. */
  predicate WellEncoded(t: Bytes)
  {
    && (forall i :: 0 <= i < |t| ==> IsUnreserved(t[i]) || t[i] == '%')
    && (forall i :: 0 <= i < |t| && t[i] == '%' ==>
          i + 2 < |t| && IsUpperHex(t[i + 1]) && IsUpperHex(t[i + 2]) && !(t[i + 1] == '7' && t[i + 2] == 'E'))
  }

  // ---------------------------------------------------------------------
  // str_replace over encoder output

  lemma StrReplaceSkip(c: Byte, rest: Bytes)
    requires c != '%'
    ensures StrReplace(EscapedTilde, Tilde, [c] + rest) == [c] + StrReplace(EscapedTilde, Tilde, rest)
  {
    var s := [c] + rest;
    assert s[1..] == rest;
    if |s| >= 3 {
      assert s[..3][0] == c;
    }
  }

  /** Three bytes other than `%7E`, the last two not `%`, are copied. */
  lemma StrReplaceSkipThree(a: Byte, b: Byte, c: Byte, rest: Bytes)
    requires [a, b, c] != EscapedTilde && b != '%' && c != '%'
    ensures StrReplace(EscapedTilde, Tilde, [a, b, c] + rest) == [a, b, c] + StrReplace(EscapedTilde, Tilde, rest)
  {
    var s := [a, b, c] + rest;
    assert s[..3] == [a, b, c];
    assert s[1..] == [b] + ([c] + rest);
    StrReplaceSkip(b, [c] + rest);
    assert ([c] + rest)[1..] == rest;
    StrReplaceSkip(c, rest);
  }

  /** The fixup leaves a non-tilde escape in place. */
  lemma StrReplaceKeepsEscape(b: Byte, rest: Bytes)
    requires !IsUnreserved(b)
    ensures StrReplace(EscapedTilde, Tilde, Escape(b) + rest) == Escape(b) + StrReplace(EscapedTilde, Tilde, rest)
  {
    var e := Escape(b);
    assert e == [e[0], e[1], e[2]];
    assert e != EscapedTilde by {
      assert EscapedTilde[1] == '7' && EscapedTilde[2] == 'E';
    }
    StrReplaceSkipThree(e[0], e[1], e[2], rest);
  }

  /** The fixup turns the escape of `~` back into `~`. */
  lemma StrReplaceTilde(rest: Bytes)
    ensures StrReplace(EscapedTilde, Tilde, Escape('~') + rest) == Tilde + StrReplace(EscapedTilde, Tilde, rest)
  {
  }

  /** The fixup leaves a non-tilde escape in place and turns `%7E` into `~`. */
  lemma StrReplaceEscape(b: Byte, rest: Bytes)
    requires !IsUnreserved(b) || b == '~'
    ensures StrReplace(EscapedTilde, Tilde, Escape(b) + rest)
         == (if b == '~' then Tilde else Escape(b)) + StrReplace(EscapedTilde, Tilde, rest)
  {
    if b == '~' {
      StrReplaceTilde(rest);
    } else {
      StrReplaceKeepsEscape(b, rest);
    }
  }

  /** The service's encoder is RFC 3986 percent-encoding. */
  lemma {:induction false} EncodeIsPercentEncode(s: Bytes)
    ensures Encode(s) == PercentEncode(s)
    decreases |s|
  {
    if s != [] {
      EncodeIsPercentEncode(s[1..]);
      var rest := RawUrlEncode(s[1..]);
      var b := s[0];
      if IsAlphaNum(b) || b in "-_." {
        StrReplaceSkip(b, rest);
      } else {
        StrReplaceEscape(b, rest);
      }
    }
  }

  /** On output of a `rawurlencode` that already leaves `~` alone (PHP 5.3
      and later) the `%7E` rewrite changes nothing. */
  lemma {:induction false} FixupHarmless(s: Bytes)
    ensures StrReplace(EscapedTilde, Tilde, PercentEncode(s)) == PercentEncode(s)
    decreases |s|
  {
    if s != [] {
      FixupHarmless(s[1..]);
      var rest := PercentEncode(s[1..]);
      if IsUnreserved(s[0]) {
        StrReplaceSkip(s[0], rest);
      } else {
        StrReplaceEscape(s[0], rest);
      }
    }
  }

  // ---------------------------------------------------------------------
  // Shape of the output

  lemma WellEncodedConcat(a: Bytes, b: Bytes)
    requires WellEncoded(a) && WellEncoded(b)
    ensures WellEncoded(a + b)
  {
    var t := a + b;
    forall i | 0 <= i < |t| && t[i] == '%'
      ensures i + 2 < |t| && IsUpperHex(t[i + 1]) && IsUpperHex(t[i + 2]) && !(t[i + 1] == '7' && t[i + 2] == 'E')
    {
      if i < |a| {
        assert a[i] == '%';
      } else {
        assert b[i - |a|] == '%';
      }
    }
  }

  lemma EscapeWellEncoded(b: Byte)
    requires !IsUnreserved(b)
    ensures WellEncoded(Escape(b))
  {
  }

  lemma {:induction false} PercentEncodeWellEncoded(s: Bytes)
    ensures WellEncoded(PercentEncode(s))
    decreases |s|
  {
    if s != [] {
      PercentEncodeWellEncoded(s[1..]);
      if !IsUnreserved(s[0]) {
        EscapeWellEncoded(s[0]);
      }
      WellEncodedConcat(if IsUnreserved(s[0]) then [s[0]] else Escape(s[0]), PercentEncode(s[1..]));
    }
  }

  /** Every output byte is unreserved or `%`, every `%` starts an upper-case
      escape, `~` is never escaped and `%7E` occurs nowhere; in particular
      the separators `=` and `&` of the query never occur. */
  lemma EncodeAlphabet(s: Bytes)
    ensures WellEncoded(Encode(s))
    ensures forall i :: 0 <= i < |Encode(s)| - 2 ==>
              !(Encode(s)[i] == '%' && Encode(s)[i + 1] == '7' && Encode(s)[i + 2] == 'E')
    ensures '=' !in Encode(s) && '&' !in Encode(s)
  {
    EncodeIsPercentEncode(s);
    PercentEncodeWellEncoded(s);
  }

  /** A byte that is neither unreserved nor `%` never appears in the output. */
  lemma NotInEncoding(s: Bytes, c: Byte)
    requires !IsUnreserved(c) && c != '%'
    ensures c !in Encode(s)
  {
    EncodeAlphabet(s);
  }

  /** A string encodes to itself exactly when it is made only of unreserved
      characters; so a literal `~` stays a literal `~`. */
  lemma {:induction false} EncodeFixedPoint(s: Bytes)
    ensures Encode(s) == s <==> forall i :: 0 <= i < |s| ==> IsUnreserved(s[i])
    decreases |s|
  {
    EncodeIsPercentEncode(s);
    EncodeIsPercentEncode(if s == [] then [] else s[1..]);
    if s != [] {
      EncodeFixedPoint(s[1..]);
      if IsUnreserved(s[0]) {
        assert PercentEncode(s) == [s[0]] + PercentEncode(s[1..]);
        assert s == [s[0]] + s[1..];
        if forall i :: 0 <= i < |s| ==> IsUnreserved(s[i]) {
          assert forall i :: 0 <= i < |s[1..]| ==> IsUnreserved(s[1..][i]) by {
            forall i | 0 <= i < |s[1..]| ensures IsUnreserved(s[1..][i]) {
              assert s[1..][i] == s[i + 1];
            }
          }
        }
        if Encode(s) == s {
          assert PercentEncode(s[1..]) == s[1..];
          assert forall i :: 0 <= i < |s| ==> IsUnreserved(s[i]) by {
            forall i | 0 <= i < |s| ensures IsUnreserved(s[i]) {
              if i > 0 {
                assert s[i] == s[1..][i - 1];
              }
            }
          }
        }
      } else {
        assert |PercentEncode(s)| >= |s| + 2;
      }
    }
  }

  /** `rawurldecode` recovers the original bytes from the encoding. */
  lemma {:induction false} DecodeEncode(s: Bytes)
    ensures PercentDecode(Encode(s)) == s
    decreases |s|
  {
    EncodeIsPercentEncode(s);
    if s != [] {
      EncodeIsPercentEncode(s[1..]);
      DecodeEncode(s[1..]);
      var rest := PercentEncode(s[1..]);
      if IsUnreserved(s[0]) {
        var t := [s[0]] + rest;
        assert t[1..] == rest;
        if s[0] == '%' {
          assert false;
        }
      } else {
        var t := Escape(s[0]) + rest;
        assert t[3..] == rest;
        assert t[0] == '%' && t[1] == Escape(s[0])[1] && t[2] == Escape(s[0])[2];
      }
      assert s == [s[0]] + s[1..];
    }
  }

  /** Different strings never share an encoding. */
  lemma EncodeInjective(a: Bytes, b: Bytes)
    requires Encode(a) == Encode(b)
    ensures a == b
  {
    DecodeEncode(a);
    DecodeEncode(b);
  }
}
