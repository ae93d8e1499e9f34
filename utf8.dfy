/**
 * UTF-8 as RFC 3629 defines it. The server encodes every response with
 * `str.encode("utf-8")`, decodes the request with `bytes.decode("utf-8")`
 * (strict: an ill-formed byte sequence raises), and the query decoder turns
 * percent-escaped bytes back into text with `errors="replace"`, which puts one
 * U+FFFD in place of each maximal ill-formed subpart (section 3.9 of the
 * Unicode Standard, Table 3-7 ranges).
 */
module Utf8 {
  import opened Wrappers

  type Byte = b: int | 0 <= b < 0x100

  predicate IsAscii(c: char) { (c as int) < 0x80 }

  /** The UTF-8 bytes of one scalar value (RFC 3629 section 3). */
  function EncodeChar(c: char): (r: seq<Byte>)
    ensures 1 <= |r| <= 4
    ensures |r| == 1 <==> IsAscii(c)
    ensures forall k :: 0 <= k < |r| && IsAscii(c) ==> r[k] == c as int
    ensures forall k :: 0 <= k < |r| && !IsAscii(c) ==> r[k] >= 0x80
  {
    var n := c as int;
    if n < 0x80 then [n]
    else if n < 0x800 then [0xC0 + n / 64, 0x80 + n % 64]
    else if n < 0x10000 then
      var q := n / 64;
      [0xE0 + q / 64, 0x80 + q % 64, 0x80 + n % 64]
    else
      var q1 := n / 64;
      var q2 := q1 / 64;
      [0xF0 + q2 / 64, 0x80 + q2 % 64, 0x80 + q1 % 64, 0x80 + n % 64]
  }

  /** The UTF-8 bytes of a string: `s.encode("utf-8")`. Never shorter than the string. */
  function Encode(s: string): (r: seq<Byte>)
    ensures |r| >= |s|
    decreases |s|
  {
    if s == [] then [] else EncodeChar(s[0]) + Encode(s[1..])
  }

  lemma {:induction false} EncodeAppend(a: string, b: string)
    ensures Encode(a + b) == Encode(a) + Encode(b)
    decreases |a|
  {
    if a != [] {
      assert (a + b)[0] == a[0];
      assert (a + b)[1..] == a[1..] + b;
      EncodeAppend(a[1..], b);
    } else {
      assert a + b == b;
    }
  }

  /**
   * The byte length equals the character count exactly when every character is
   * below U+0080; otherwise it is larger.
   */
  lemma {:induction false} EncodedLengthAscii(s: string)
    ensures |Encode(s)| == |s| <==> forall i :: 0 <= i < |s| ==> IsAscii(s[i])
    decreases |s|
  {
    if s != [] {
      EncodedLengthAscii(s[1..]);
      assert forall i :: 1 <= i < |s| ==> s[i] == s[1..][i - 1];
    }
  }

  // ----- decoding -----

  /** Number of continuation bytes a well-formed sequence with this lead byte needs. */
  function Continuations(lead: Byte): nat
  {
    if lead < 0xE0 then 1 else if lead < 0xF0 then 2 else 3
  }

  /** The range the k-th continuation byte (k >= 1) may take after `lead` (Unicode Table 3-7). */
  predicate ContinuationOk(lead: Byte, k: nat, b: Byte)
  {
    if k == 1 && lead == 0xE0 then 0xA0 <= b <= 0xBF
    else if k == 1 && lead == 0xED then 0x80 <= b <= 0x9F
    else if k == 1 && lead == 0xF0 then 0x90 <= b <= 0xBF
    else if k == 1 && lead == 0xF4 then 0x80 <= b <= 0x8F
    else 0x80 <= b <= 0xBF
  }

  /** How many of the bytes after the lead, up to `need`, continue it validly. */
  function Matched(bs: seq<Byte>, need: nat): (m: nat)
    requires |bs| >= 1 && need <= 3
    ensures m <= need && m < |bs|
    ensures forall k :: 1 <= k <= m ==> ContinuationOk(bs[0], k, bs[k])
    ensures m < need ==> m + 1 == |bs| || !ContinuationOk(bs[0], m + 1, bs[m + 1])
  {
    if need >= 1 && |bs| > 1 && ContinuationOk(bs[0], 1, bs[1]) then
      if need >= 2 && |bs| > 2 && ContinuationOk(bs[0], 2, bs[2]) then
        if need >= 3 && |bs| > 3 && ContinuationOk(bs[0], 3, bs[3]) then 3 else 2
      else 1
    else 0
  }

  predicate IsScalar(n: int) { 0 <= n < 0xD800 || 0xE000 <= n < 0x11_0000 }

  /** The scalar value of a complete, well-formed multi-byte sequence. */
  function MultiByteValue(bs: seq<Byte>): (c: char)
    requires 2 <= |bs| <= 4 && 0xC2 <= bs[0] <= 0xF4 && |bs| == 1 + Continuations(bs[0])
    requires forall k :: 1 <= k < |bs| ==> ContinuationOk(bs[0], k, bs[k])
  {
    var b: seq<int> := bs;
    var n: int :=
      if |b| == 2 then (b[0] - 0xC0) * 64 + (b[1] - 0x80)
      else if |b| == 3 then ((b[0] - 0xE0) * 64 + (b[1] - 0x80)) * 64 + (b[2] - 0x80)
      else (((b[0] - 0xF0) * 64 + (b[1] - 0x80)) * 64 + (b[2] - 0x80)) * 64 + (b[3] - 0x80);
    assert 0x80 <= b[1] <= 0xBF by { assert ContinuationOk(bs[0], 1, bs[1]); }
    assert |b| >= 3 ==> 0x80 <= b[2] <= 0xBF by { if |b| >= 3 { assert ContinuationOk(bs[0], 2, bs[2]); } }
    assert |b| == 4 ==> 0x80 <= b[3] <= 0xBF by { if |b| == 4 { assert ContinuationOk(bs[0], 3, bs[3]); } }
    assert IsScalar(n) by {
      assert ContinuationOk(bs[0], 1, bs[1]);
      if |b| == 2 {
      } else if |b| == 3 {
        if b[0] == 0xE0 { assert b[1] >= 0xA0; }
        else if b[0] == 0xED { assert b[1] <= 0x9F; }
      } else {
        if b[0] == 0xF0 { assert b[1] >= 0x90; }
        else if b[0] == 0xF4 { assert b[1] <= 0x8F; }
      }
    }
    n as char
  }

  /** One decoding step: how many bytes it consumes, and the character, or None for an ill-formed subpart. */
  datatype Step = Step(length: nat, ch: Option<char>)

  function Scan(bs: seq<Byte>): (r: Step)
    requires |bs| >= 1
    ensures 1 <= r.length <= |bs|
  {
    var lead := bs[0];
    if lead < 0x80 then Step(1, Some(lead as char))
    else if lead < 0xC2 || lead > 0xF4 then Step(1, None)
    else
      var need := Continuations(lead);
      var m := Matched(bs, need);
      if m == need then Step(1 + need, Some(MultiByteValue(bs[..1 + need])))
      else Step(1 + m, None)
  }

  /**
   * Strict decoding, `bs.decode("utf-8")`: None when the bytes are not
   * well-formed UTF-8. It accepts only encodings: the text it returns encodes
   * back to exactly the bytes it was given.
   */
  function Decode(bs: seq<Byte>): (r: Option<string>)
    ensures r.Some? ==> Encode(r.value) == bs
    decreases |bs|
  {
    if bs == [] then Some([])
    else
      var st := Scan(bs);
      if st.ch.None? then None
      else
        match Decode(bs[st.length..])
        case None => None
        case Some(rest) =>
          DecodeStep(bs, rest);
          Some([st.ch.value] + rest)
  }

  const Replacement: char := '\U{FFFD}'

  /** `bs.decode("utf-8", "replace")`: never fails, and yields at least one character per non-empty input. */
  function DecodeReplace(bs: seq<Byte>): (s: string)
    ensures |s| <= |bs|
    ensures |bs| > 0 ==> |s| > 0
    decreases |bs|
  {
    if bs == [] then []
    else
      var st := Scan(bs);
      [if st.ch.Some? then st.ch.value else Replacement] + DecodeReplace(bs[st.length..])
  }

  /** Where strict decoding succeeds, replacing decoding gives the same text. */
  lemma {:induction false} DecodeReplaceAgrees(bs: seq<Byte>)
    requires Decode(bs).Some?
    ensures DecodeReplace(bs) == Decode(bs).value
    decreases |bs|
  {
    if bs != [] {
      DecodeReplaceAgrees(bs[Scan(bs).length..]);
    }
  }

  /** Decoding the bytes of one character, whatever follows, consumes exactly those bytes and yields it. */
  lemma ScanEncodeChar(c: char, rest: seq<Byte>)
    ensures Scan(EncodeChar(c) + rest) == Step(|EncodeChar(c)|, Some(c))
  {
    var n := c as int;
    if n < 0x80 {
      assert (EncodeChar(c) + rest)[0] == n as Byte;
    } else if n < 0x800 {
      ScanTwoBytes(c, rest);
    } else if n < 0x10000 {
      ScanThreeBytes(c, rest);
    } else {
      ScanFourBytes(c, rest);
    }
  }

  lemma ScanTwoBytes(c: char, rest: seq<Byte>)
    requires 0x80 <= c as int < 0x800
    ensures Scan(EncodeChar(c) + rest) == Step(2, Some(c))
  {
    var e := EncodeChar(c);
    var bs := e + rest;
    var n := c as int;
    assert bs[..|e|] == e;
    assert bs[0] == 0xC0 + n / 64 && bs[1] == 0x80 + n % 64;
    assert MultiByteValue(e) as int == n;
  }

  lemma ScanThreeBytes(c: char, rest: seq<Byte>)
    requires 0x800 <= c as int < 0x10000
    ensures Scan(EncodeChar(c) + rest) == Step(3, Some(c))
  {
    var e := EncodeChar(c);
    var bs := e + rest;
    var n := c as int;
    var q := n / 64;
    assert bs[..|e|] == e;
    assert bs[0] == 0xE0 + q / 64 && bs[1] == 0x80 + q % 64 && bs[2] == 0x80 + n % 64;
    assert MultiByteValue(e) as int == (q / 64 * 64 + q % 64) * 64 + n % 64;
  }

  lemma ScanFourBytes(c: char, rest: seq<Byte>)
    requires 0x10000 <= c as int
    ensures Scan(EncodeChar(c) + rest) == Step(4, Some(c))
  {
    var e := EncodeChar(c);
    var bs := e + rest;
    var n := c as int;
    var q1 := n / 64;
    var q2 := q1 / 64;
    assert bs[..|e|] == e;
    assert bs[0] == 0xF0 + q2 / 64 && bs[1] == 0x80 + q2 % 64;
    assert bs[2] == 0x80 + q1 % 64 && bs[3] == 0x80 + n % 64;
    assert MultiByteValue(e) as int == ((q2 / 64 * 64 + q2 % 64) * 64 + q1 % 64) * 64 + n % 64;
  }

  /** Strict decoding inverts encoding: the bytes the server sends decode to the text it meant. */
  lemma {:induction false} DecodeEncode(s: string)
    ensures Decode(Encode(s)) == Some(s)
    decreases |s|
  {
    if s != [] {
      var e := EncodeChar(s[0]);
      ScanEncodeChar(s[0], Encode(s[1..]));
      assert (e + Encode(s[1..]))[|e|..] == Encode(s[1..]);
      DecodeEncode(s[1..]);
      assert s == [s[0]] + s[1..];
    }
  }

  /** The bytes one well-formed step consumes are the encoding of the character it yields. */
  lemma ScanInverse(bs: seq<Byte>)
    requires |bs| >= 1 && Scan(bs).ch.Some?
    ensures EncodeChar(Scan(bs).ch.value) == bs[..Scan(bs).length]
  {
    var lead := bs[0];
    if lead >= 0x80 {
      var need := Continuations(lead);
      assert Matched(bs, need) == need;
      if need == 1 {
        InverseTwoBytes(bs[..2]);
      } else if need == 2 {
        InverseThreeBytes(bs[..3]);
      } else {
        InverseFourBytes(bs[..4]);
      }
    }
  }

  lemma InverseTwoBytes(e: seq<Byte>)
    requires |e| == 2 && 0xC2 <= e[0] < 0xE0 && ContinuationOk(e[0], 1, e[1])
    ensures EncodeChar(MultiByteValue(e)) == e
  {
    var b: seq<int> := e;
    var n := MultiByteValue(e) as int;
    assert n == (b[0] - 0xC0) * 64 + (b[1] - 0x80);
    assert n / 64 == b[0] - 0xC0 && n % 64 == b[1] - 0x80;
  }

  lemma InverseThreeBytes(e: seq<Byte>)
    requires |e| == 3 && 0xE0 <= e[0] < 0xF0
    requires ContinuationOk(e[0], 1, e[1]) && ContinuationOk(e[0], 2, e[2])
    ensures EncodeChar(MultiByteValue(e)) == e
  {
    var b: seq<int> := e;
    var n := MultiByteValue(e) as int;
    var q := (b[0] - 0xE0) * 64 + (b[1] - 0x80);
    assert n == q * 64 + (b[2] - 0x80);
    assert n / 64 == q && n % 64 == b[2] - 0x80;
    assert q / 64 == b[0] - 0xE0 && q % 64 == b[1] - 0x80;
    assert 0x800 <= n < 0x10000;
  }

  lemma InverseFourBytes(e: seq<Byte>)
    requires |e| == 4 && 0xF0 <= e[0] <= 0xF4
    requires ContinuationOk(e[0], 1, e[1]) && ContinuationOk(e[0], 2, e[2]) && ContinuationOk(e[0], 3, e[3])
    ensures EncodeChar(MultiByteValue(e)) == e
  {
    var b: seq<int> := e;
    var n := MultiByteValue(e) as int;
    var q2 := (b[0] - 0xF0) * 64 + (b[1] - 0x80);
    var q1 := q2 * 64 + (b[2] - 0x80);
    assert n == q1 * 64 + (b[3] - 0x80);
    assert n / 64 == q1 && n % 64 == b[3] - 0x80;
    assert q1 / 64 == q2 && q1 % 64 == b[2] - 0x80;
    assert q2 / 64 == b[0] - 0xF0 && q2 % 64 == b[1] - 0x80;
    assert 0x10000 <= n;
  }

  /** A well-formed step followed by the encoding of the rest is the encoding of the character and the rest. */
  lemma DecodeStep(bs: seq<Byte>, rest: string)
    requires |bs| >= 1 && Scan(bs).ch.Some? && Encode(rest) == bs[Scan(bs).length..]
    ensures Encode([Scan(bs).ch.value] + rest) == bs
  {
    var st := Scan(bs);
    ScanInverse(bs);
    EncodeCons(st.ch.value, rest);
    assert bs == bs[..st.length] + bs[st.length..];
  }

  lemma EncodeCons(c: char, t: string)
    ensures Encode([c] + t) == EncodeChar(c) + Encode(t)
  {
    assert ([c] + t)[0] == c && ([c] + t)[1..] == t;
  }

  /** So the bytes that decode are exactly the encodings of some text; all others are rejected. */
  lemma DecodesExactlyEncodings(bs: seq<Byte>)
    ensures Decode(bs).Some? <==> exists s: string :: Encode(s) == bs
  {
    if Decode(bs).Some? {
      var s := Decode(bs).value;
      assert Encode(s) == bs;
    }
    forall s: string | Encode(s) == bs
      ensures Decode(bs).Some?
    {
      DecodeEncode(s);
    }
  }

  /** Replacing decoding inverts encoding as well. */
  lemma DecodeReplaceEncode(s: string)
    ensures DecodeReplace(Encode(s)) == s
  {
    DecodeEncode(s);
    DecodeReplaceAgrees(Encode(s));
  }
}
