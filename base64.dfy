/**
 * Base64 of section 4 of RFC 4648, as Go's `base64.StdEncoding` applies it:
 * the page token of the transaction listing and the basic-auth token are
 * Base64 text. Decoding follows the standard, padded alphabet and, as Go's
 * decoder does, skips carriage returns and line feeds and ignores unused
 * trailing bits.
 */
module Base64 {
  import opened Common

  /** The character of the 64-letter alphabet for the sextet `v`. */
  function EncodeSextet(v: int): (c: char)
    requires 0 <= v < 64
    ensures c != '=' && c != '\r' && c != '\n'
  {
    if v < 26 then ('A' as int + v) as char
    else if v < 52 then ('a' as int + (v - 26)) as char
    else if v < 62 then ('0' as int + (v - 52)) as char
    else if v == 62 then '+'
    else '/'
  }

  function DecodeSextet(c: char): (r: Option<int>)
    ensures r.Some? ==> 0 <= r.value < 64
  {
    if 'A' <= c <= 'Z' then Some(c as int - 'A' as int)
    else if 'a' <= c <= 'z' then Some(c as int - 'a' as int + 26)
    else if '0' <= c <= '9' then Some(c as int - '0' as int + 52)
    else if c == '+' then Some(62)
    else if c == '/' then Some(63)
    else None
  }

  lemma SextetRoundTrip(v: int)
    requires 0 <= v < 64
    ensures DecodeSextet(EncodeSextet(v)) == Some(v)
  {
  }

  /** One group of one to three bytes as four letters, padded with '='. */
  function EncodeGroup(g: seq<byte>): (r: string)
    requires 1 <= |g| <= 3
    ensures |r| == 4
    ensures forall i :: 0 <= i < |r| ==> r[i] != '\r' && r[i] != '\n'
  {
    var b0 := g[0] as int;
    var b1 := if |g| > 1 then g[1] as int else 0;
    var b2 := if |g| > 2 then g[2] as int else 0;
    [EncodeSextet(b0 / 4), EncodeSextet((b0 % 4) * 16 + b1 / 16),
     if |g| > 1 then EncodeSextet((b1 % 16) * 4 + b2 / 64) else '=',
     if |g| > 2 then EncodeSextet(b2 % 64) else '=']
  }

  /** `base64.StdEncoding.EncodeToString`: every three bytes become four
      letters; a final group of one or two bytes is padded. */
  function Encode(bs: seq<byte>): (r: string)
    ensures |r| == 4 * ((|bs| + 2) / 3)
    ensures forall i :: 0 <= i < |r| ==> r[i] != '\r' && r[i] != '\n'
  {
    if |bs| == 0 then ""
    else if |bs| <= 3 then EncodeGroup(bs)
    else EncodeGroup(bs[..3]) + Encode(bs[3..])
  }

  /** The text with every '\r' and '\n' removed. */
  function StripNewlines(s: string): string {
    if s == [] then []
    else if s[0] == '\r' || s[0] == '\n' then StripNewlines(s[1..])
    else [s[0]] + StripNewlines(s[1..])
  }

  /** One quantum of four letters: its bytes, and whether it was padded. */
  function DecodeQuantum(q: string): Option<(seq<byte>, bool)>
    requires |q| == 4
  {
    var o0, o1 := DecodeSextet(q[0]), DecodeSextet(q[1]);
    if o0.None? || o1.None? then None
    else
      var v0, v1 := o0.value, o1.value;
      var first := (v0 * 4 + v1 / 16) as byte;
      if q[2] == '=' then
        if q[3] == '=' then Some(([first], true)) else None
      else
        var o2 := DecodeSextet(q[2]);
        if o2.None? then None
        else
          var v2 := o2.value;
          var second := ((v1 % 16) * 16 + v2 / 4) as byte;
          if q[3] == '=' then Some(([first, second], true))
          else
            var o3 := DecodeSextet(q[3]);
            if o3.None? then None
            else Some(([first, second, ((v2 % 4) * 64 + o3.value) as byte], false))
  }

  /** Decodes whole quanta; a padded quantum may only end the text. */
  function DecodeQuanta(s: string): Option<seq<byte>>
    decreases |s|
  {
    if |s| == 0 then Some([])
    else if |s| < 4 then None
    else
      match DecodeQuantum(s[..4])
      case None => None
      case Some((head, padded)) =>
        if padded then (if |s| == 4 then Some(head) else None)
        else
          match DecodeQuanta(s[4..])
          case None => None
          case Some(rest) => Some(head + rest)
  }

  /** `base64.StdEncoding.DecodeString`; `None` is its "illegal base64 data" error. */
  function Decode(s: string): Option<seq<byte>> {
    DecodeQuanta(StripNewlines(s))
  }

  lemma {:induction false} StripNewlinesNoop(s: string)
    requires forall i :: 0 <= i < |s| ==> s[i] != '\r' && s[i] != '\n'
    ensures StripNewlines(s) == s
  {
    if s != [] {
      StripNewlinesNoop(s[1..]);
    }
  }

  /** The arithmetic of one group: the sextets of three bytes give the bytes back. */
  lemma GroupArithmetic(b0: int, b1: int, b2: int)
    requires 0 <= b0 < 256 && 0 <= b1 < 256 && 0 <= b2 < 256
    ensures (b0 / 4) * 4 + ((b0 % 4) * 16 + b1 / 16) / 16 == b0
    ensures (((b0 % 4) * 16 + b1 / 16) % 16) * 16 + ((b1 % 16) * 4 + b2 / 64) / 4 == b1
    ensures (((b1 % 16) * 4 + b2 / 64) % 4) * 64 + b2 % 64 == b2
  {
  }

  lemma DecodeEncodeGroup(g: seq<byte>)
    requires 1 <= |g| <= 3
    ensures DecodeQuantum(EncodeGroup(g)) == Some((g, |g| < 3))
  {
    var b0 := g[0] as int;
    var b1 := if |g| > 1 then g[1] as int else 0;
    var b2 := if |g| > 2 then g[2] as int else 0;
    var q := EncodeGroup(g);
    SextetRoundTrip(b0 / 4);
    SextetRoundTrip((b0 % 4) * 16 + b1 / 16);
    GroupArithmetic(b0, b1, b2);
    assert DecodeSextet(q[0]) == Some(b0 / 4);
    assert DecodeSextet(q[1]) == Some((b0 % 4) * 16 + b1 / 16);
    var first := ((b0 / 4) * 4 + ((b0 % 4) * 16 + b1 / 16) / 16) as byte;
    assert first == g[0];
    if |g| == 1 {
      assert [first] == g;
    } else {
      SextetRoundTrip((b1 % 16) * 4 + b2 / 64);
      assert DecodeSextet(q[2]) == Some((b1 % 16) * 4 + b2 / 64);
      var second := ((((b0 % 4) * 16 + b1 / 16) % 16) * 16 + ((b1 % 16) * 4 + b2 / 64) / 4) as byte;
      assert second == g[1];
      if |g| == 2 {
        assert [first, second] == g;
      } else {
        SextetRoundTrip(b2 % 64);
        assert DecodeSextet(q[3]) == Some(b2 % 64);
        var third := ((((b1 % 16) * 4 + b2 / 64) % 4) * 64 + b2 % 64) as byte;
        assert third == g[2];
        assert [first, second, third] == g;
      }
    }
  }

  lemma {:induction false} DecodeQuantaEncode(bs: seq<byte>)
    ensures DecodeQuanta(Encode(bs)) == Some(bs)
    decreases |bs|
  {
    if 1 <= |bs| <= 3 {
      var e := Encode(bs);
      assert e[..4] == e;
      assert e[4..] == "";
      DecodeEncodeGroup(bs);
      assert bs + [] == bs;
    } else if |bs| > 3 {
      var e := Encode(bs);
      assert e[..4] == EncodeGroup(bs[..3]);
      assert e[4..] == Encode(bs[3..]);
      DecodeEncodeGroup(bs[..3]);
      DecodeQuantaEncode(bs[3..]);
      assert bs == bs[..3] + bs[3..];
    }
  }

  /** Decoding what Go's encoder produced gives back the same bytes. */
  lemma DecodeEncode(bs: seq<byte>)
    ensures Decode(Encode(bs)) == Some(bs)
  {
    StripNewlinesNoop(Encode(bs));
    DecodeQuantaEncode(bs);
  }

  /** The encoding is empty exactly when the input is. */
  lemma EncodeEmpty(bs: seq<byte>)
    ensures Encode(bs) == "" <==> bs == []
  {
  }
}
