/**
 * The URL- and filename-safe base64 encoding of section 5 of RFC 4648, as
 * `base64.urlsafe_b64encode` computes it, and the `rstrip("=")` the router
 * applies to it when it builds a download signature (core/router.py).
 */
module Base64Url {
  import opened Classes

  /** The character for a 6-bit value: `A`-`Z`, `a`-`z`, `0`-`9`, then `-` and `_`. */
  function Char(i: nat): char
    requires i < 64
  {
    if i < 26 then ('A' as int + i) as char
    else if i < 52 then ('a' as int + i - 26) as char
    else if i < 62 then ('0' as int + i - 52) as char
    else if i == 62 then '-'
    else '_'
  }

  /** The 6-bit value of an alphabet character. */
  function Index(c: char): (r: Option<nat>)
    ensures r.Some? ==> r.value < 64
  {
    if 'A' <= c <= 'Z' then Some(c as int - 'A' as int)
    else if 'a' <= c <= 'z' then Some(c as int - 'a' as int + 26)
    else if '0' <= c <= '9' then Some(c as int - '0' as int + 52)
    else if c == '-' then Some(62)
    else if c == '_' then Some(63)
    else None
  }

  lemma IndexChar(i: nat)
    requires i < 64
    ensures Index(Char(i)) == Some(i) && Char(i) != '='
  {
  }

  /** The four characters of a full group of three bytes. */
  function Group3(b0: byte, b1: byte, b2: byte): string
  {
    [Char(b0 / 4), Char((b0 % 4) * 16 + b1 / 16), Char((b1 % 16) * 4 + b2 / 64), Char(b2 % 64)]
  }

  /** The two characters of a final group of one byte. */
  function Tail1(b0: byte): string
  {
    [Char(b0 / 4), Char((b0 % 4) * 16)]
  }

  /** The three characters of a final group of two bytes. */
  function Tail2(b0: byte, b1: byte): string
  {
    [Char(b0 / 4), Char((b0 % 4) * 16 + b1 / 16), Char((b1 % 16) * 4)]
  }

  /** `urlsafe_b64encode`: groups of three bytes, a final group of one or two padded with `=`. */
  function Encode(b: seq<byte>): string
    decreases |b|
  {
    if |b| == 0 then ""
    else if |b| == 1 then Tail1(b[0]) + "=="
    else if |b| == 2 then Tail2(b[0], b[1]) + "="
    else Group3(b[0], b[1], b[2]) + Encode(b[3..])
  }

  /** The same encoding without the padding characters. */
  function EncodeNoPad(b: seq<byte>): string
    decreases |b|
  {
    if |b| == 0 then ""
    else if |b| == 1 then Tail1(b[0])
    else if |b| == 2 then Tail2(b[0], b[1])
    else Group3(b[0], b[1], b[2]) + EncodeNoPad(b[3..])
  }

  /** `s.rstrip("=")`: every trailing `=` removed. */
  function StripPadding(s: string): (r: string)
    ensures |r| <= |s| && r == s[..|r|]
    ensures |r| > 0 ==> r[|r| - 1] != '='
    ensures forall i :: |r| <= i < |s| ==> s[i] == '='
  {
    if |s| > 0 && s[|s| - 1] == '=' then StripPadding(s[..|s| - 1]) else s
  }

  /** No character of the unpadded encoding is `=`. */
  lemma {:induction false} NoPadHasNoEquals(b: seq<byte>)
    ensures forall i :: 0 <= i < |EncodeNoPad(b)| ==> EncodeNoPad(b)[i] != '='
    decreases |b|
  {
    if |b| >= 3 {
      NoPadHasNoEquals(b[3..]);
      var g := Group3(b[0], b[1], b[2]);
      IndexChar(b[0] / 4);
      IndexChar((b[0] % 4) * 16 + b[1] / 16);
      IndexChar((b[1] % 16) * 4 + b[2] / 64);
      IndexChar(b[2] % 64);
    } else if |b| == 2 {
      IndexChar(b[0] / 4);
      IndexChar((b[0] % 4) * 16 + b[1] / 16);
      IndexChar((b[1] % 16) * 4);
    } else if |b| == 1 {
      IndexChar(b[0] / 4);
      IndexChar((b[0] % 4) * 16);
    }
  }

  lemma ModThree(n: nat)
    ensures (n + 3) % 3 == n % 3
  {
  }

  /** The padded encoding is the unpadded one followed by `=` to a multiple of four. */
  lemma {:induction false} EncodeIsNoPadPlusPadding(b: seq<byte>)
    ensures Encode(b) == EncodeNoPad(b) + (if |b| % 3 == 1 then "==" else if |b| % 3 == 2 then "=" else "")
    decreases |b|
  {
    if |b| >= 3 {
      EncodeIsNoPadPlusPadding(b[3..]);
      ModThree(|b[3..]|);
      var g := Group3(b[0], b[1], b[2]);
      var pad := if |b| % 3 == 1 then "==" else if |b| % 3 == 2 then "=" else "";
      calc {
        Encode(b);
        g + Encode(b[3..]);
        g + (EncodeNoPad(b[3..]) + pad);
        (g + EncodeNoPad(b[3..])) + pad;
        EncodeNoPad(b) + pad;
      }
    }
  }

  /** `rstrip("=")` removes a run of `=` appended to a string that does not end in `=`. */
  lemma {:induction false} StripAppended(n: string, p: string)
    requires |n| > 0 ==> n[|n| - 1] != '='
    requires forall i :: 0 <= i < |p| ==> p[i] == '='
    ensures StripPadding(n + p) == n
    decreases |p|
  {
    if |p| > 0 {
      assert (n + p)[..|n + p| - 1] == n + p[..|p| - 1];
      StripAppended(n, p[..|p| - 1]);
    } else {
      assert n + p == n;
    }
  }

  /** Stripping the padding leaves exactly the unpadded encoding. */
  lemma UnpaddedIsNoPad(b: seq<byte>)
    ensures StripPadding(Encode(b)) == EncodeNoPad(b)
  {
    EncodeIsNoPadPlusPadding(b);
    NoPadHasNoEquals(b);
    StripAppended(EncodeNoPad(b), if |b| % 3 == 1 then "==" else if |b| % 3 == 2 then "=" else "");
  }

  /** Four characters per full group and two or three for a final short one: `ceil(4n/3)`. */
  lemma {:induction false} NoPadLength(b: seq<byte>)
    ensures |EncodeNoPad(b)| == (4 * |b| + 2) / 3
    decreases |b|
  {
    if |b| >= 3 {
      NoPadLength(b[3..]);
    }
  }

  /** The decoder of the unpadded encoding; None on a character outside the alphabet or a stray length. */
  function DecodeNoPad(s: string): Option<seq<byte>>
    decreases |s|
  {
    if |s| == 0 then Some([])
    else if |s| == 1 then None
    else
      var i0, i1 := Index(s[0]), Index(s[1]);
      if i0.None? || i1.None? then None
      else if |s| == 2 then Some([i0.value * 4 + i1.value / 16])
      else
        var i2 := Index(s[2]);
        if i2.None? then None
        else if |s| == 3 then Some([i0.value * 4 + i1.value / 16, (i1.value % 16) * 16 + i2.value / 4])
        else
          var i3 := Index(s[3]);
          if i3.None? then None
          else match DecodeNoPad(s[4..])
            case None => None
            case Some(rest) =>
              Some([i0.value * 4 + i1.value / 16, (i1.value % 16) * 16 + i2.value / 4, (i2.value % 4) * 64 + i3.value] + rest)
  }

  /** The six-bit pieces of three bytes put back together give the three bytes. */
  lemma Regroup(b0: byte, b1: byte, b2: byte)
    ensures (b0 / 4) * 4 + ((b0 % 4) * 16 + b1 / 16) / 16 == b0
    ensures (((b0 % 4) * 16 + b1 / 16) % 16) * 16 + ((b1 % 16) * 4 + b2 / 64) / 4 == b1
    ensures (((b1 % 16) * 4 + b2 / 64) % 4) * 64 + b2 % 64 == b2
  {
    assert ((b0 % 4) * 16 + b1 / 16) / 16 == b0 % 4;
    assert ((b0 % 4) * 16 + b1 / 16) % 16 == b1 / 16;
    assert ((b1 % 16) * 4 + b2 / 64) / 4 == b1 % 16;
    assert ((b1 % 16) * 4 + b2 / 64) % 4 == b2 / 64;
  }

  /** A final group of two bytes decodes back. */
  lemma DecodeTwo(b0: byte, b1: byte)
    ensures DecodeNoPad(EncodeNoPad([b0, b1])) == Some([b0, b1])
  {
    var i0, i1, i2 := b0 / 4, (b0 % 4) * 16 + b1 / 16, (b1 % 16) * 4;
    Regroup(b0, b1, 0);
    IndexChar(i0);
    IndexChar(i1);
    IndexChar(i2);
    assert i2 / 4 == b1 % 16;
    assert i0 * 4 + i1 / 16 == b0;
    assert (i1 % 16) * 16 + i2 / 4 == b1;
    var s := EncodeNoPad([b0, b1]);
    assert s == [Char(i0), Char(i1), Char(i2)];
  }

  /** A final group of one byte decodes back. */
  lemma DecodeOne(b0: byte)
    ensures DecodeNoPad(EncodeNoPad([b0])) == Some([b0])
  {
    var i0, i1 := b0 / 4, (b0 % 4) * 16;
    Regroup(b0, 0, 0);
    IndexChar(i0);
    IndexChar(i1);
    assert i0 * 4 + i1 / 16 == b0;
    var s := EncodeNoPad([b0]);
    assert s == [Char(i0), Char(i1)];
  }

  /** A full group of four characters decodes back to its three bytes, ahead of whatever follows. */
  lemma DecodeGroup(b0: byte, b1: byte, b2: byte, t: string)
    ensures DecodeNoPad(Group3(b0, b1, b2) + t) ==
      match DecodeNoPad(t)
      case None => None
      case Some(rest) => Some([b0, b1, b2] + rest)
  {
    var i0, i1, i2, i3 := b0 / 4, (b0 % 4) * 16 + b1 / 16, (b1 % 16) * 4 + b2 / 64, b2 % 64;
    Regroup(b0, b1, b2);
    IndexChar(i0);
    IndexChar(i1);
    IndexChar(i2);
    IndexChar(i3);
    assert i0 * 4 + i1 / 16 == b0;
    assert (i1 % 16) * 16 + i2 / 4 == b1;
    assert (i2 % 4) * 64 + i3 == b2;
    var s := Group3(b0, b1, b2) + t;
    assert s[..4] == [Char(i0), Char(i1), Char(i2), Char(i3)];
    assert s[4..] == t;
  }

  /** Decoding inverts the unpadded encoding. */
  lemma {:induction false} DecodeEncode(b: seq<byte>)
    ensures DecodeNoPad(EncodeNoPad(b)) == Some(b)
    decreases |b|
  {
    if |b| >= 3 {
      DecodeGroup(b[0], b[1], b[2], EncodeNoPad(b[3..]));
      DecodeEncode(b[3..]);
      assert b == [b[0], b[1], b[2]] + b[3..];
    } else if |b| == 2 {
      assert b == [b[0], b[1]];
      DecodeTwo(b[0], b[1]);
    } else if |b| == 1 {
      assert b == [b[0]];
      DecodeOne(b[0]);
    }
  }

  /** The stripped encoding loses nothing: distinct byte strings have distinct encodings. */
  lemma UnpaddedInjective(a: seq<byte>, b: seq<byte>)
    requires StripPadding(Encode(a)) == StripPadding(Encode(b))
    ensures a == b
  {
    UnpaddedIsNoPad(a);
    UnpaddedIsNoPad(b);
    DecodeEncode(a);
    DecodeEncode(b);
  }

  /** A 20-byte SHA-1 digest encodes to 28 characters with one `=`, so to 27 once stripped. */
  lemma DigestLength(d: seq<byte>)
    requires |d| == 20
    ensures |Encode(d)| == 28 && |StripPadding(Encode(d))| == 27
  {
    EncodeIsNoPadPlusPadding(d);
    NoPadLength(d);
    UnpaddedIsNoPad(d);
  }
}
