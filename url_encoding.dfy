/**
 * `encodeUrl` of the HTTP worker (a static helper of `HTTPRequest.cpp`):
 * a left-to-right scan of the URL's bytes that copies an existing `%xx`
 * triplet verbatim, copies alphanumerics and `/ : ~ - . _`, and writes
 * every other byte as `%` followed by `std::hex` of `static_cast<int>(c)`.
 * It is modelled as written, next to percent-decoding as section 2.1 of
 * RFC 3986 defines it and a corrected escape with two hex digits.
 */
module UrlEncoding {
  import opened Util
  import opened Numerals

  /** One byte of a `std::string`. */
  type Byte = b: nat | b < 256

  const PERCENT: Byte := 37

  /** `::isalnum` in the "C" locale: ASCII letters and digits only. */
  predicate IsAlnum(b: Byte)
  {
    48 <= b <= 57 || 65 <= b <= 90 || 97 <= b <= 122
  }

  /** The `authorizedCharacters` set: `/`, `:`, `~`, `-`, `.`, `_`. */
  predicate IsAuthorized(b: Byte)
  {
    b == 47 || b == 58 || b == 126 || b == 45 || b == 46 || b == 95
  }

  /** A byte `encodeUrl` copies as it is. */
  predicate Unreserved(b: Byte)
  {
    IsAlnum(b) || IsAuthorized(b)
  }

  /** No `%` anywhere: a URL that has not been encoded yet. */
  predicate PercentFree(s: seq<Byte>)
  {
    forall i :: 0 <= i < |s| ==> s[i] != PERCENT
  }

  /** The lower-case hex digit `std::hex` prints for `d`. */
  function HexDigit(d: nat): (b: Byte)
    requires d < 16
    ensures b != PERCENT && IsAlnum(b)
  {
    if d < 10 then 48 + d else 87 + d
  }

  /** The value of a hex digit of either case, as RFC 3986 allows. */
  function HexValue(b: Byte): Option<nat>
  {
    if 48 <= b <= 57 then Some(b - 48)
    else if 97 <= b <= 102 then Some(b - 87)
    else if 65 <= b <= 70 then Some(b - 55)
    else None
  }

  lemma HexValueOfDigit(d: nat)
    requires d < 16
    ensures HexValue(HexDigit(d)) == Some(d)
  {
  }

  /** `std::hex` of a non-negative number: its base-16 digits, lower case, no leading zero. */
  function LowerHex(n: nat): seq<Byte>
  {
    DigitsRoundTrip(n, 16);
    var ds := Digits(n, 16);
    seq(|ds|, i requires 0 <= i < |ds| => HexDigit(ds[i]))
  }

  /** `static_cast<int>(c)` for a byte, where plain `char` is signed or unsigned as the platform decides. */
  function CharValue(b: Byte, charIsSigned: bool): int
  {
    if charIsSigned && b >= 128 then b - 256 else b
  }

  /**
   * `stream << std::hex << v` for an `int`: a negative value is printed as its
   * 32-bit two's complement bit pattern.
   */
  function HexOfInt(v: int): seq<Byte>
    requires -0x8000_0000 <= v < 0x8000_0000
  {
    LowerHex(if v < 0 then v + 0x1_0000_0000 else v)
  }

  /** The escape `encodeUrl` writes for a byte that is neither alphanumeric nor authorized. */
  function Escape(b: Byte, charIsSigned: bool): seq<Byte>
  {
    [PERCENT] + HexOfInt(CharValue(b, charIsSigned))
  }

  /** The escape section 2.1 of RFC 3986 prescribes: `%` and exactly two hex digits. */
  function PaddedEscape(b: Byte): seq<Byte>
  {
    [PERCENT, HexDigit(b / 16), HexDigit(b % 16)]
  }

  /** `url.at(i + 1)` or `url.at(i + 2)` threw `std::out_of_range`. */
  datatype EncodeError = OutOfRange

  /** Put `p` in front of a successful output; an error stays an error. */
  function Prepend(p: seq<Byte>, r: Result<seq<Byte>, EncodeError>): (q: Result<seq<Byte>, EncodeError>)
  {
    if r.Ok? then Ok(p + r.value) else r
  }

  lemma PrependAssoc(a: seq<Byte>, b: seq<Byte>, r: Result<seq<Byte>, EncodeError>)
    ensures Prepend(a, Prepend(b, r)) == Prepend(a + b, r)
  {
    if r.Ok? {
      assert a + (b + r.value) == a + b + r.value;
    }
  }

  lemma PrependNil(r: Result<seq<Byte>, EncodeError>)
    ensures Prepend([], r) == r
  {
    if r.Ok? {
      assert [] + r.value == r.value;
    }
  }

  /**
   * The scan of `encodeUrl` over the bytes `s` not yet read, writing `escape(c)`
   * for a byte that must be escaped.
   */
  function EncodeWith(s: seq<Byte>, escape: Byte -> seq<Byte>): Result<seq<Byte>, EncodeError>
    decreases |s|
  {
    if s == [] then Ok([])
    else if s[0] == PERCENT then
      if |s| < 3 then Err(OutOfRange) else Prepend(s[..3], EncodeWith(s[3..], escape))
    else if Unreserved(s[0]) then Prepend([s[0]], EncodeWith(s[1..], escape))
    else Prepend(escape(s[0]), EncodeWith(s[1..], escape))
  }

  /** The escape as written, for the platform's signedness of `char`. */
  function AsWritten(charIsSigned: bool): Byte -> seq<Byte>
  {
    b => Escape(b, charIsSigned)
  }

  /** `encodeUrl` as written. */
  function EncodeUrl(url: seq<Byte>, charIsSigned: bool): Result<seq<Byte>, EncodeError>
  {
    EncodeWith(url, AsWritten(charIsSigned))
  }

  /** `encodeUrl` with the escape padded to two hex digits. */
  function EncodeUrlPadded(url: seq<Byte>): Result<seq<Byte>, EncodeError>
  {
    EncodeWith(url, PaddedEscape)
  }

  /** The loop of `encodeUrl`, writing into a stream. */
  method EncodeUrlStream(url: seq<Byte>, charIsSigned: bool) returns (r: Result<seq<Byte>, EncodeError>)
    ensures r == EncodeUrl(url, charIsSigned)
  {
    var encoded: seq<Byte> := [];
    var i := 0;
    assert url[i..] == url;
    PrependNil(EncodeUrl(url, charIsSigned));
    while i < |url|
      invariant i <= |url|
      invariant Prepend(encoded, EncodeWith(url[i..], AsWritten(charIsSigned))) == EncodeUrl(url, charIsSigned)
    {
      var c := url[i];
      if c == PERCENT {
        if i + 2 >= |url| {
          assert url[i..][0] == PERCENT && |url[i..]| < 3;
          return Err(OutOfRange);
        }
        assert url[i..][..3] == [c, url[i + 1], url[i + 2]];
        assert url[i..][3..] == url[i + 3..];
        PrependAssoc(encoded, [c, url[i + 1], url[i + 2]], EncodeWith(url[i + 3..], AsWritten(charIsSigned)));
        encoded := encoded + [c, url[i + 1], url[i + 2]];
        i := i + 3;
        continue;
      }
      assert url[i..][1..] == url[i + 1..];
      var piece := if Unreserved(c) then [c] else Escape(c, charIsSigned);
      PrependAssoc(encoded, piece, EncodeWith(url[i + 1..], AsWritten(charIsSigned)));
      encoded := encoded + piece;
      i := i + 1;
    }
    assert url[i..] == [];
    assert encoded + [] == encoded;
    r := Ok(encoded);
  }

  /** Percent-decoding (section 2.1 of RFC 3986); `None` when a `%` is not followed by two hex digits. */
  function PercentDecode(s: seq<Byte>): Option<seq<Byte>>
    decreases |s|
  {
    if s == [] then Some([])
    else if s[0] != PERCENT then
      var rest := PercentDecode(s[1..]);
      if rest.Some? then Some([s[0]] + rest.value) else None
    else if |s| < 3 || HexValue(s[1]).None? || HexValue(s[2]).None? then None
    else
      var hi, lo := HexValue(s[1]).value, HexValue(s[2]).value;
      var rest := PercentDecode(s[3..]);
      if rest.Some? && hi < 16 && lo < 16 then Some([hi * 16 + lo] + rest.value) else None
  }

  // ---------------------------------------------------------------------------
  // Properties of the scan

  /** A URL made only of alphanumerics and authorized characters comes out unchanged. */
  lemma {:induction false} UnreservedUnchanged(url: seq<Byte>, escape: Byte -> seq<Byte>)
    requires forall i :: 0 <= i < |url| ==> Unreserved(url[i])
    ensures EncodeWith(url, escape) == Ok(url)
    decreases |url|
  {
    if url != [] {
      UnreservedUnchanged(url[1..], escape);
      assert [url[0]] + url[1..] == url;
    }
  }

  /** A URL without `%` is always encoded, whatever the escape. */
  lemma {:induction false} PercentFreeSucceeds(url: seq<Byte>, escape: Byte -> seq<Byte>)
    requires PercentFree(url)
    ensures EncodeWith(url, escape).Ok?
    decreases |url|
  {
    if url != [] {
      PercentFreeSucceeds(url[1..], escape);
    }
  }

  /**
   * A `%` reached by the scan with fewer than two bytes after it makes
   * `encodeUrl` throw: the scan reaches a `%` exactly when the bytes before it
   * were encoded without error, whatever `%xx` triplets they hold.
   */
  lemma {:induction false} DanglingPercentFails(prefix: seq<Byte>, tail: seq<Byte>, escape: Byte -> seq<Byte>)
    requires EncodeWith(prefix, escape).Ok? && |tail| < 2
    ensures EncodeWith(prefix + [PERCENT] + tail, escape) == Err(OutOfRange)
    decreases |prefix|
  {
    var s := prefix + [PERCENT] + tail;
    if prefix == [] {
      assert s == [PERCENT] + tail;
    } else if prefix[0] == PERCENT {
      assert s[..3] == prefix[..3];
      assert s[3..] == prefix[3..] + [PERCENT] + tail;
      DanglingPercentFails(prefix[3..], tail, escape);
    } else {
      assert s[1..] == prefix[1..] + [PERCENT] + tail;
      DanglingPercentFails(prefix[1..], tail, escape);
    }
  }

  /** The converse: every throw comes from a `%` the scan reaches with fewer than two bytes after it. */
  lemma {:induction false} FailureHasDanglingPercent(s: seq<Byte>, escape: Byte -> seq<Byte>)
    requires EncodeWith(s, escape).Err?
    ensures exists prefix, tail :: s == prefix + [PERCENT] + tail && |tail| < 2 && EncodeWith(prefix, escape).Ok?
    decreases |s|
  {
    if s[0] == PERCENT && |s| < 3 {
      assert s == [] + [PERCENT] + s[1..];
      assert EncodeWith([], escape).Ok?;
    } else if s[0] == PERCENT {
      assert EncodeWith(s[3..], escape).Err?;
      FailureHasDanglingPercent(s[3..], escape);
      var p, t :| s[3..] == p + [PERCENT] + t && |t| < 2 && EncodeWith(p, escape).Ok?;
      ExtendedPrefix(s, 3, p, t, escape);
    } else {
      assert EncodeWith(s[1..], escape).Err?;
      FailureHasDanglingPercent(s[1..], escape);
      var p, t :| s[1..] == p + [PERCENT] + t && |t| < 2 && EncodeWith(p, escape).Ok?;
      ExtendedPrefix(s, 1, p, t, escape);
    }
  }

  /** One step of `FailureHasDanglingPercent`: the witness for `s[n..]` extends to one for `s`. */
  lemma ExtendedPrefix(s: seq<Byte>, n: nat, p: seq<Byte>, t: seq<Byte>, escape: Byte -> seq<Byte>)
    requires (n == 3 && |s| >= 3 && s[0] == PERCENT) || (n == 1 && |s| >= 1 && s[0] != PERCENT)
    requires s[n..] == p + [PERCENT] + t && EncodeWith(p, escape).Ok?
    ensures s == (s[..n] + p) + [PERCENT] + t && EncodeWith(s[..n] + p, escape).Ok?
  {
    PrefixExtends(s[..n], p, escape);
    assert s == s[..n] + s[n..];
  }

  /** Putting a `%xx` triplet or one byte other than `%` in front of a prefix the scan encodes keeps it encodable. */
  lemma PrefixExtends(head: seq<Byte>, p: seq<Byte>, escape: Byte -> seq<Byte>)
    requires (|head| == 3 && head[0] == PERCENT) || (|head| == 1 && head[0] != PERCENT)
    requires EncodeWith(p, escape).Ok?
    ensures EncodeWith(head + p, escape).Ok?
  {
    var q := head + p;
    assert q[0] == head[0];
    if head[0] == PERCENT {
      assert q[..3] == head && q[3..] == p;
    } else {
      assert q[1..] == p;
    }
  }

  /** The scan of a byte other than `%`. */
  lemma ScanByte(b: Byte, rest: seq<Byte>, escape: Byte -> seq<Byte>)
    requires b != PERCENT
    ensures EncodeWith([b] + rest, escape) == Prepend(if Unreserved(b) then [b] else escape(b), EncodeWith(rest, escape))
  {
    assert ([b] + rest)[1..] == rest;
  }

  /** Whether the scan throws does not depend on the escape. */
  lemma {:induction false} FailureIgnoresEscape(s: seq<Byte>, e1: Byte -> seq<Byte>, e2: Byte -> seq<Byte>)
    ensures EncodeWith(s, e1).Err? <==> EncodeWith(s, e2).Err?
    decreases |s|
  {
    if s != [] {
      if s[0] == PERCENT {
        if |s| >= 3 {
          FailureIgnoresEscape(s[3..], e1, e2);
        }
      } else {
        FailureIgnoresEscape(s[1..], e1, e2);
      }
    }
  }

  /** Each byte the scan writes comes out as one or more bytes: the output is never shorter. */
  lemma {:induction false} EncodedNotShorter(s: seq<Byte>, escape: Byte -> seq<Byte>)
    requires forall b :: |escape(b)| >= 1
    ensures EncodeWith(s, escape).Ok? ==> |EncodeWith(s, escape).value| >= |s|
    decreases |s|
  {
    if s != [] {
      if s[0] == PERCENT {
        if |s| >= 3 {
          EncodedNotShorter(s[3..], escape);
        }
      } else {
        EncodedNotShorter(s[1..], escape);
      }
    }
  }

  // ---------------------------------------------------------------------------
  // The escape as written

  /** A byte from 0x10 to 0xff prints as exactly two hex digits. */
  lemma TwoHexDigits(b: nat)
    requires 16 <= b < 256
    ensures LowerHex(b) == [HexDigit(b / 16), HexDigit(b % 16)]
  {
    DivMod(b, 0, 0, 16);
    assert Digits(b, 16) == [b / 16, b % 16];
  }

  /** A byte below 0x10 prints as a single hex digit. */
  lemma OneHexDigit(b: nat)
    requires b < 16
    ensures LowerHex(b) == [HexDigit(b)]
  {
  }

  /**
   * The escape as written is the two-digit one exactly for the bytes from
   * 0x10 up, and, where `char` is signed, below 0x80.
   */
  lemma {:induction false} EscapeIsPaddedIff(b: Byte, charIsSigned: bool)
    ensures Escape(b, charIsSigned) == PaddedEscape(b) <==> 16 <= b && (b < 128 || !charIsSigned)
  {
    if b < 16 {
      OneHexDigit(b);
      assert |Escape(b, charIsSigned)| == 2;
    } else if b < 128 || !charIsSigned {
      TwoHexDigits(b);
    } else {
      var v := b - 256 + 0x1_0000_0000;
      DigitsRoundTrip(v, 16);
      DigitsLength(v, 16);
      DivMod(v, 0, 0, 16);
      DigitsLength(v / 16, 16);
      assert |Digits(v, 16)| >= 3 by {
        assert Digits(v, 16) == Digits(v / 16, 16) + [v % 16];
      }
    }
  }

  /** Decoding an escape yields its byte. */
  lemma {:induction false} DecodePadded(b: Byte, rest: seq<Byte>)
    ensures PercentDecode(PaddedEscape(b) + rest) ==
      if PercentDecode(rest).Some? then Some([b] + PercentDecode(rest).value) else None
  {
    var s := PaddedEscape(b) + rest;
    HexValueOfDigit(b / 16);
    HexValueOfDigit(b % 16);
    assert s[3..] == rest;
  }

  /**
   * Finding: a byte below 0x10 gets a single hex digit, so a tab followed by
   * `a` and the already-encoded `%9a` give the same URL, which decodes to the
   * single byte 0x9a; and the output of a lone tab, `%9`, makes `encodeUrl`
   * throw when it is encoded again.
   */
  lemma UnpaddedEscapeIsAmbiguous(charIsSigned: bool)
    ensures EncodeUrl([9, 97], charIsSigned) == Ok([PERCENT, 57, 97])
    ensures EncodeUrl([PERCENT, 57, 97], charIsSigned) == Ok([PERCENT, 57, 97])
    ensures PercentDecode([PERCENT, 57, 97]) == Some([0x9a])
    ensures EncodeUrl([9], charIsSigned) == Ok([PERCENT, 57])
    ensures EncodeUrl([PERCENT, 57], charIsSigned) == Err(OutOfRange)
  {
    var escape := AsWritten(charIsSigned);
    var none: seq<Byte> := [];
    var a: seq<Byte> := [97];
    var tab: seq<Byte> := [9];
    var escaped: seq<Byte> := [PERCENT, 57];
    var triplet: seq<Byte> := [PERCENT, 57, 97];
    OneHexDigit(9);
    assert Escape(9, charIsSigned) == escaped;
    ScanByte(97, none, escape);
    assert a + none == a;
    assert EncodeWith(a, escape) == Ok(a);
    ScanByte(9, a, escape);
    assert tab + a == [9, 97] && escaped + a == triplet;
    ScanByte(9, none, escape);
    assert tab + none == tab && escaped + none == escaped;
    assert triplet[..3] == triplet && triplet[3..] == none && triplet + none == triplet;
    assert triplet[1..] == [57, 97] && triplet[3..] == none;
    var nine: seq<Byte> := [0x9a];
    assert PercentDecode(none) == Some(none);
    assert nine + none == nine;
  }

  /**
   * Finding: where `char` is signed, a byte from 0x80 up is sign-extended
   * before printing: 0xc3 comes out as `%ffffffc3`, not `%c3`.
   */
  lemma SignExtendedEscape()
    ensures Escape(0xc3, true) == [PERCENT, 102, 102, 102, 102, 102, 102, 99, 51]
    ensures Escape(0xc3, false) == [PERCENT, 99, 51]
  {
    TwoHexDigits(0xc3);
    var v := 0xffff_ffc3;
    assert Digits(v, 16) == [15, 15, 15, 15, 15, 15, 12, 3] by {
      assert Digits(0xf, 16) == [15];
      assert Digits(0xff, 16) == [15, 15];
      assert Digits(0xfff, 16) == [15, 15, 15];
      assert Digits(0xffff, 16) == [15, 15, 15, 15];
      assert Digits(0xf_ffff, 16) == [15, 15, 15, 15, 15];
      assert Digits(0xff_ffff, 16) == [15, 15, 15, 15, 15, 15];
      assert Digits(0xfff_fffc, 16) == [15, 15, 15, 15, 15, 15, 12];
    }
  }

  /**
   * As written, decoding undoes encoding for a URL without `%` when
   * every byte it escapes is one whose escape has two digits.
   */
  lemma {:induction false} AsWrittenRoundTrip(url: seq<Byte>, charIsSigned: bool)
    requires PercentFree(url)
    requires forall i :: 0 <= i < |url| ==> Unreserved(url[i]) || (16 <= url[i] && (url[i] < 128 || !charIsSigned))
    ensures EncodeUrl(url, charIsSigned).Ok?
    ensures EncodeUrl(url, charIsSigned) == EncodeUrlPadded(url)
    ensures PercentDecode(EncodeUrl(url, charIsSigned).value) == Some(url)
    decreases |url|
  {
    PercentFreeSucceeds(url, AsWritten(charIsSigned));
    SameAsPadded(url, charIsSigned);
    PaddedRoundTrip(url);
  }

  lemma {:induction false} SameAsPadded(url: seq<Byte>, charIsSigned: bool)
    requires forall i :: 0 <= i < |url| ==> url[i] == PERCENT || Unreserved(url[i]) || (16 <= url[i] && (url[i] < 128 || !charIsSigned))
    ensures EncodeUrl(url, charIsSigned) == EncodeUrlPadded(url)
    decreases |url|
  {
    if url != [] {
      if url[0] == PERCENT {
        if |url| >= 3 {
          SameAsPadded(url[3..], charIsSigned);
        }
      } else {
        SameAsPadded(url[1..], charIsSigned);
        if !Unreserved(url[0]) {
          EscapeIsPaddedIff(url[0], charIsSigned);
        }
      }
    }
  }

  // ---------------------------------------------------------------------------
  // The corrected escape

  /** With two-digit escapes, decoding undoes encoding for every URL without `%`. */
  lemma {:induction false} PaddedRoundTrip(url: seq<Byte>)
    requires PercentFree(url)
    ensures EncodeUrlPadded(url).Ok?
    ensures PercentDecode(EncodeUrlPadded(url).value) == Some(url)
    decreases |url|
  {
    if url != [] {
      PaddedRoundTrip(url[1..]);
      var rest := EncodeUrlPadded(url[1..]).value;
      if Unreserved(url[0]) {
        assert ([url[0]] + rest)[1..] == rest;
      } else {
        DecodePadded(url[0], rest);
      }
      assert [url[0]] + url[1..] == url;
    }
  }

  /**
   * With two-digit escapes the output is a fixed point: encoding a URL that
   * was already encoded changes nothing.
   */
  lemma {:induction false} PaddedIdempotent(url: seq<Byte>)
    requires EncodeUrlPadded(url).Ok?
    ensures EncodeUrlPadded(EncodeUrlPadded(url).value) == EncodeUrlPadded(url)
    decreases |url|
  {
    if url != [] {
      var seg, rest :=
        if url[0] == PERCENT then url[..3] else if Unreserved(url[0]) then [url[0]] else PaddedEscape(url[0]),
        if url[0] == PERCENT then url[3..] else url[1..];
      assert EncodeUrlPadded(url) == Prepend(seg, EncodeUrlPadded(rest));
      PaddedIdempotent(rest);
      var e := EncodeUrlPadded(rest).value;
      assert (seg + e)[..|seg|] == seg && (seg + e)[|seg|..] == e;
      if |seg| == 3 {
        assert (seg + e)[..3] == seg && (seg + e)[3..] == e;
      } else {
        assert (seg + e)[1..] == e;
      }
    }
  }
}
