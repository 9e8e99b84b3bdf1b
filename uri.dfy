/**
 * `decodeURIComponent` and its inverse `encodeURIComponent`, as the report
 * endpoint uses the first on the file-name segment of a request path.
 * Every `%XY` escape stands for one byte; the bytes of a run of escapes
 * must form one UTF-8 encoded code point each, or the decoder throws
 * (here: `None`). No character is left encoded on decoding.
 */
module Uri {
  import opened Wrappers

  predicate IsHex(c: char) {
    ('0' <= c <= '9') || ('a' <= c <= 'f') || ('A' <= c <= 'F')
  }

  function HexValue(c: char): (v: nat)
    requires IsHex(c)
    ensures v < 16
  {
    if '0' <= c <= '9' then c as nat - '0' as nat
    else if 'a' <= c <= 'f' then c as nat - 'a' as nat + 10
    else c as nat - 'A' as nat + 10
  }

  /** The byte written by the escape at the start of `s`, if `s` starts with one. */
  function EscapedByte(s: string): (r: Option<nat>)
    ensures r.Some? ==> |s| >= 3 && s[0] == '%' && r.value < 256
  {
    if |s| >= 3 && s[0] == '%' && IsHex(s[1]) && IsHex(s[2]) then Some(16 * HexValue(s[1]) + HexValue(s[2]))
    else None
  }

  /** The number of bytes of the UTF-8 sequence a lead byte opens (0 for a byte that cannot lead one) and its value bits. */
  function LeadLength(b: nat): nat {
    if b < 0x80 then 1
    else if b < 0xC0 then 0
    else if b < 0xE0 then 2
    else if b < 0xF0 then 3
    else if b < 0xF8 then 4
    else 0
  }

  function LeadBits(b: nat): nat {
    if b < 0xE0 then b % 0x20 else if b < 0xF0 then b % 0x10 else b % 0x08
  }

  /** The code points shorter sequences cannot write: the least value of a sequence of each length. */
  function LeastOfLength(n: nat): nat {
    if n == 2 then 0x80 else if n == 3 then 0x800 else 0x10000
  }

  /**
   * Reads `count` escaped continuation bytes (`10xxxxxx`) from the start of
   * `s`, shifting their six value bits into `acc`.
   */
  function Continuation(s: string, count: nat, acc: nat): (r: Option<nat>)
    ensures r.Some? ==> |s| >= 3 * count
    decreases count
  {
    if count == 0 then Some(acc)
    else match EscapedByte(s)
      case None => None
      case Some(b) =>
        if 0x80 <= b < 0xC0 then Continuation(s[3..], count - 1, acc * 64 + (b - 0x80)) else None
  }

  predicate IsScalar(v: nat) {
    v < 0xD800 || (0xE000 <= v < 0x110000)
  }

  /** `decodeURIComponent(s)`: `None` where it throws a `URIError`. */
  function Decode(s: string): (r: Option<string>)
    ensures r.Some? ==> |r.value| <= |s|
    decreases |s|
  {
    if |s| == 0 then Some("")
    else if s[0] != '%' then Prepend(s[0], Decode(s[1..]))
    else match EscapedByte(s)
      case None => None
      case Some(b) =>
        var n := LeadLength(b);
        if n == 0 then None
        else if n == 1 then Prepend(b as char, Decode(s[3..]))
        else match Continuation(s[3..], n - 1, LeadBits(b))
          case None => None
          case Some(v) =>
            if LeastOfLength(n) <= v && IsScalar(v) then Prepend(v as char, Decode(s[3 * n..]))
            else None
  }

  function Prepend(c: char, r: Option<string>): (p: Option<string>)
    ensures p.Some? <==> r.Some?
    ensures p.Some? ==> p.value == [c] + r.value
  {
    match r
    case None => None
    case Some(t) => Some([c] + t)
  }

  /** The characters `encodeURIComponent` leaves as they are. */
  predicate IsUnreserved(c: char) {
    ('A' <= c <= 'Z') || ('a' <= c <= 'z') || ('0' <= c <= '9')
    || c in {'-', '_', '.', '!', '~', '*', '\'', '(', ')'}
  }

  function HexDigit(d: nat): (c: char)
    requires d < 16
    ensures IsHex(c) && HexValue(c) == d
  {
    if d < 10 then ('0' as nat + d) as char else ('A' as nat + d - 10) as char
  }

  /** The escape of one byte. */
  function Escape(b: nat): (e: string)
    requires b < 256
    ensures |e| == 3
  {
    ['%', HexDigit(b / 16), HexDigit(b % 16)]
  }

  /** The escapes of the UTF-8 encoding of one character, or the character itself when it is unreserved. */
  function EncodeChar(c: char): (e: string)
    ensures |e| > 0
  {
    var v := c as nat;
    if IsUnreserved(c) then [c]
    else if v < 0x80 then Escape(v)
    else if v < 0x800 then Escape(0xC0 + v / 64) + Escape(0x80 + v % 64)
    else if v < 0x10000 then Escape(0xE0 + v / 4096) + Escape(0x80 + v / 64 % 64) + Escape(0x80 + v % 64)
    else Escape(0xF0 + v / 262144) + Escape(0x80 + v / 4096 % 64) + Escape(0x80 + v / 64 % 64) + Escape(0x80 + v % 64)
  }

  /** `encodeURIComponent(s)`; it never throws on a string of scalar values. */
  function Encode(s: string): (r: string)
    ensures |r| >= |s|
  {
    if |s| == 0 then "" else EncodeChar(s[0]) + Encode(s[1..])
  }

  /** A text without `%` decodes to itself. */
  lemma {:induction false} DecodePlain(s: string)
    requires '%' !in s
    ensures Decode(s) == Some(s)
    decreases |s|
  {
    if |s| > 0 {
      DecodePlain(s[1..]);
      assert s == [s[0]] + s[1..];
    }
  }

  /** The escape of a byte reads back as that byte. */
  lemma EscapeRead(b: nat, rest: string)
    requires b < 256
    ensures EscapedByte(Escape(b) + rest) == Some(b)
    ensures (Escape(b) + rest)[3..] == rest
  {
    var s := Escape(b) + rest;
    assert s[0] == '%' && s[1] == HexDigit(b / 16) && s[2] == HexDigit(b % 16);
  }

  /** An escaped continuation byte shifts its six value bits into the accumulated value. */
  lemma ContinuationStep(x: nat, rest: string, count: nat, acc: nat)
    requires x < 64 && count > 0
    ensures Continuation(Escape(0x80 + x) + rest, count, acc) == Continuation(rest, count - 1, acc * 64 + x)
  {
    EscapeRead(0x80 + x, rest);
  }

  /** The encoding of one character followed by anything decodes to that character first. */
  lemma DecodeEncodeChar(c: char, rest: string)
    ensures Decode(EncodeChar(c) + rest) == Prepend(c, Decode(rest))
  {
    var v := c as nat;
    var s := EncodeChar(c) + rest;
    if IsUnreserved(c) {
      assert s[0] == c && s[1..] == rest;
    } else if v < 0x80 {
      EscapeRead(v, rest);
      assert v as char == c;
    } else if v < 0x800 {
      DecodeTwo(c, rest);
    } else if v < 0x10000 {
      DecodeThree(c, rest);
    } else {
      DecodeFour(c, rest);
    }
  }

  lemma DecodeTwo(c: char, rest: string)
    requires !IsUnreserved(c) && 0x80 <= c as nat < 0x800
    ensures Decode(EncodeChar(c) + rest) == Prepend(c, Decode(rest))
  {
    var v := c as nat;
    var b0, b1 := 0xC0 + v / 64, 0x80 + v % 64;
    var t := Escape(b1) + rest;
    var s := Escape(b0) + t;
    assert EncodeChar(c) + rest == s;
    EscapeRead(b0, t);
    EscapeRead(b1, rest);
    assert LeadLength(b0) == 2 && LeadBits(b0) == v / 64;
    assert Continuation(t, 1, v / 64) == Some(v);
    assert s[6..] == rest;
  }

  lemma DecodeThree(c: char, rest: string)
    requires !IsUnreserved(c) && 0x800 <= c as nat < 0x10000
    ensures Decode(EncodeChar(c) + rest) == Prepend(c, Decode(rest))
  {
    var v := c as nat;
    var b0 := 0xE0 + v / 4096;
    var t := Escape(0x80 + v / 64 % 64) + Escape(0x80 + v % 64) + rest;
    var s := Escape(b0) + t;
    assert EncodeChar(c) + rest == s;
    EscapeRead(b0, t);
    ThreeLead(v);
    TwoContinuations(v, rest);
    assert s[9..] == t[6..];
    DecodeSequence(s, b0, v);
  }

  /** The lead byte of a three-byte sequence. */
  lemma ThreeLead(v: nat)
    requires 0x800 <= v < 0x10000
    ensures LeadLength(0xE0 + v / 4096) == 3 && LeadBits(0xE0 + v / 4096) == v / 4096
  {
  }

  lemma TwoContinuations(v: nat, rest: string)
    ensures Continuation(Escape(0x80 + v / 64 % 64) + Escape(0x80 + v % 64) + rest, 2, v / 4096) == Some(v)
    ensures (Escape(0x80 + v / 64 % 64) + Escape(0x80 + v % 64) + rest)[6..] == rest
  {
    var x1, x2 := v / 64 % 64, v % 64;
    var u := Escape(0x80 + x2) + rest;
    var t := Escape(0x80 + x1) + u;
    assert Escape(0x80 + x1) + Escape(0x80 + x2) + rest == t;
    ContinuationStep(x1, u, 2, v / 4096);
    ContinuationStep(x2, rest, 1, v / 4096 * 64 + x1);
    RegroupMiddle(v);
    RegroupLow(v);
    assert t[6..] == rest;
  }

  lemma DecodeFour(c: char, rest: string)
    requires !IsUnreserved(c) && 0x10000 <= c as nat
    ensures Decode(EncodeChar(c) + rest) == Prepend(c, Decode(rest))
  {
    var v := c as nat;
    var b0 := 0xF0 + v / 262144;
    var t := Escape(0x80 + v / 4096 % 64) + Escape(0x80 + v / 64 % 64) + Escape(0x80 + v % 64) + rest;
    var s := Escape(b0) + t;
    assert EncodeChar(c) + rest == s;
    EscapeRead(b0, t);
    FourLead(v);
    FourContinuations(v, rest);
    assert s[12..] == t[9..];
    DecodeSequence(s, b0, v);
  }

  /** The lead byte of a four-byte sequence. */
  lemma FourLead(v: nat)
    requires 0x10000 <= v < 0x110000
    ensures LeadLength(0xF0 + v / 262144) == 4 && LeadBits(0xF0 + v / 262144) == v / 262144
  {
  }

  /** A lead byte and its continuation bytes that write a scalar of the right length decode to that scalar. */
  lemma DecodeSequence(s: string, b: nat, v: nat)
    requires EscapedByte(s) == Some(b) && LeadLength(b) >= 2
    requires Continuation(s[3..], LeadLength(b) - 1, LeadBits(b)) == Some(v)
    requires LeastOfLength(LeadLength(b)) <= v && IsScalar(v)
    ensures Decode(s) == Prepend(v as char, Decode(s[3 * LeadLength(b)..]))
  {
  }

  lemma FourContinuations(v: nat, rest: string)
    requires 0x10000 <= v < 0x110000
    ensures Continuation(Escape(0x80 + v / 4096 % 64) + Escape(0x80 + v / 64 % 64) + Escape(0x80 + v % 64) + rest, 3, v / 262144) == Some(v)
    ensures (Escape(0x80 + v / 4096 % 64) + Escape(0x80 + v / 64 % 64) + Escape(0x80 + v % 64) + rest)[9..] == rest
  {
    ThreeContinuations(v / 4096 % 64, v / 64 % 64, v % 64, rest, v / 262144);
    FourGroups(v);
  }

  /** The lead bits and the three six-bit groups of a four-byte sequence make up the scalar. */
  lemma FourGroups(v: nat)
    ensures ((v / 262144 * 64 + v / 4096 % 64) * 64 + v / 64 % 64) * 64 + v % 64 == v
  {
    RegroupHigh(v);
    RegroupMiddle(v);
    RegroupLow(v);
    Combine(v / 262144, v / 4096 % 64, v / 64 % 64, v % 64, v / 4096, v / 64, v);
  }

  /** Three escaped continuation bytes shift their value bits into `acc` in turn. */
  lemma ThreeContinuations(x1: nat, x2: nat, x3: nat, rest: string, acc: nat)
    requires x1 < 64 && x2 < 64 && x3 < 64
    ensures Continuation(Escape(0x80 + x1) + Escape(0x80 + x2) + Escape(0x80 + x3) + rest, 3, acc)
         == Some(((acc * 64 + x1) * 64 + x2) * 64 + x3)
    ensures (Escape(0x80 + x1) + Escape(0x80 + x2) + Escape(0x80 + x3) + rest)[9..] == rest
  {
    var w := Escape(0x80 + x3) + rest;
    var u := Escape(0x80 + x2) + w;
    var t := Escape(0x80 + x1) + u;
    assert Escape(0x80 + x1) + Escape(0x80 + x2) + Escape(0x80 + x3) + rest == t;
    ContinuationStep(x1, u, 3, acc);
    ContinuationStep(x2, w, 2, acc * 64 + x1);
    ContinuationStep(x3, rest, 1, (acc * 64 + x1) * 64 + x2);
    assert t[9..] == rest;
  }

  lemma Combine(a: nat, x1: nat, x2: nat, x3: nat, b: nat, c: nat, v: nat)
    requires a * 64 + x1 == b && b * 64 + x2 == c && c * 64 + x3 == v
    ensures ((a * 64 + x1) * 64 + x2) * 64 + x3 == v
  {
  }

  /** The six-bit groups of `v` from the third one up make up `v / 4096`. */
  lemma RegroupHigh(v: nat)
    ensures (v / 262144) * 64 + v / 4096 % 64 == v / 4096
  {
  }

  lemma RegroupMiddle(v: nat)
    ensures (v / 4096) * 64 + v / 64 % 64 == v / 64
  {
  }

  lemma RegroupLow(v: nat)
    ensures (v / 64) * 64 + v % 64 == v
  {
  }

  /** Decoding undoes encoding, for every string. */
  lemma {:induction false} DecodeEncode(s: string)
    ensures Decode(Encode(s)) == Some(s)
    decreases |s|
  {
    if |s| > 0 {
      DecodeEncode(s[1..]);
      DecodeEncodeChar(s[0], Encode(s[1..]));
      assert s == [s[0]] + s[1..];
    }
  }

  /** A `%` that is not followed by two hexadecimal digits makes the decoder throw. */
  lemma {:induction false} BadEscape(p: string, q: string)
    requires '%' !in p
    requires |q| < 2 || !IsHex(q[0]) || !IsHex(q[1])
    ensures Decode(p + ['%'] + q) == None
    decreases |p|
  {
    var s := p + ['%'] + q;
    if |p| == 0 {
      assert s == ['%'] + q;
      assert EscapedByte(s) == None;
    } else {
      assert s[1..] == p[1..] + ['%'] + q;
      BadEscape(p[1..], q);
    }
  }

  /** An encoded text holds no `/`, so it stays one segment of a path. */
  lemma {:induction false} EncodeHasNoSlash(s: string)
    ensures '/' !in Encode(s)
    decreases |s|
  {
    if |s| > 0 {
      EncodeHasNoSlash(s[1..]);
      EncodeCharHasNoSlash(s[0]);
    }
  }

  lemma EncodeCharHasNoSlash(c: char)
    ensures '/' !in EncodeChar(c)
  {
    var e := EncodeChar(c);
    forall k | 0 <= k < |e| ensures e[k] != '/' {
      assert e[k] == c || e[k] == '%' || IsHex(e[k]);
    }
  }
}
