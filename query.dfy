/**
 * Decoding of the query string into a map from names to value lists, as the
 * server gets it from `urllib.parse.parse_qs` with its defaults: fields are
 * separated by '&', a field is split at its first '=', a field without '='
 * or with nothing after its '=' is dropped (keep_blank_values is false and the
 * test is made on the raw text), then '+' becomes a space and percent-escapes
 * are decoded (`unquote` with UTF-8 and errors="replace"). Values of a
 * repeated name accumulate in order. This is the
 * application/x-www-form-urlencoded parser of section 5.1 of the WHATWG URL
 * Standard, with Python's dropping of blank values.
 */
module FormUrlEncoded {
  import opened Wrappers
  import opened Text
  import Utf8

  type Query = map<string, seq<string>>

  function PlusToSpace(s: string): string {
    seq(|s|, i requires 0 <= i < |s| => if s[i] == '+' then ' ' else s[i])
  }

  predicate IsHexDigit(c: char) { '0' <= c <= '9' || 'A' <= c <= 'F' || 'a' <= c <= 'f' }

  function HexValue(c: char): (v: nat)
    requires IsHexDigit(c)
    ensures v < 16
  {
    if c <= '9' then c as int - '0' as int
    else if c <= 'F' then c as int - 'A' as int + 10
    else c as int - 'a' as int + 10
  }

  predicate AllAscii(s: string) { forall i :: 0 <= i < |s| ==> Utf8.IsAscii(s[i]) }

  /** Length of the leading run of ASCII characters. */
  function AsciiRunLength(s: string): (n: nat)
    ensures n <= |s| && AllAscii(s[..n])
    ensures n < |s| ==> !Utf8.IsAscii(s[n])
    decreases |s|
  {
    if s == [] || !Utf8.IsAscii(s[0]) then 0 else 1 + AsciiRunLength(s[1..])
  }

  /**
   * `unquote_to_bytes` on an ASCII run: "%" and two hex digits give one byte;
   * any other character, a lone "%" included, gives its own byte.
   */
  function PercentBytes(t: string): (r: seq<Utf8.Byte>)
    requires AllAscii(t)
    ensures |t| > 0 ==> |r| > 0
    decreases |t|
  {
    if t == [] then []
    else if |t| >= 3 && t[0] == '%' && IsHexDigit(t[1]) && IsHexDigit(t[2]) then
      [HexValue(t[1]) * 16 + HexValue(t[2])] + PercentBytes(t[3..])
    else
      [t[0] as int] + PercentBytes(t[1..])
  }

  /**
   * `unquote(s)`: each maximal ASCII run is percent-decoded to bytes and those
   * bytes decoded as UTF-8 with replacement; other characters pass through.
   */
  function Unquote(s: string): (r: string)
    ensures |s| > 0 ==> |r| > 0
    decreases |s|
  {
    if s == [] then []
    else if !Utf8.IsAscii(s[0]) then [s[0]] + Unquote(s[1..])
    else
      var n := AsciiRunLength(s);
      Utf8.DecodeReplace(PercentBytes(s[..n])) + Unquote(s[n..])
  }

  /**
   * A name or value as it is stored: '+' becomes a space, then escapes are
   * decoded. A component with neither '+' nor '%' is stored verbatim.
   */
  function DecodeComponent(s: string): (r: string)
    ensures '+' !in s && '%' !in s ==> r == s
    ensures |r| > 0 <==> |s| > 0
  {
    var t := PlusToSpace(s);
    if '+' in s || '%' in s then Unquote(t)
    else
      assert t == s;
      UnquotePlain(s);
      Unquote(t)
  }

  /** One '&'-separated field: no pair when it has no '=' or nothing after its first '='. */
  function ParseField(f: string): (r: seq<(string, string)>)
    ensures |r| <= 1
    ensures forall k :: 0 <= k < |r| ==> r[k].1 != []
  {
    match IndexOf(f, "=")
    case None => []
    case Some(i) =>
      if i + 1 == |f| then [] else [(DecodeComponent(f[..i]), DecodeComponent(f[i + 1..]))]
  }

  function ParseFields(fields: seq<string>): (r: seq<(string, string)>)
    ensures |r| <= |fields|
    ensures forall k :: 0 <= k < |r| ==> r[k].1 != []
    decreases |fields|
  {
    if fields == [] then [] else ParseField(fields[0]) + ParseFields(fields[1..])
  }

  /** `parse_qsl(qs)`: the decoded pairs in order, at most one per field, none with an empty value. */
  function ParseQsl(qs: string): (r: seq<(string, string)>)
    ensures |r| <= |Split(qs, "&")|
    ensures forall k :: 0 <= k < |r| ==> r[k].1 != []
  {
    ParseFields(Split(qs, "&"))
  }

  /** `parse_qs`'s accumulation: each pair appends its value to its name's list. */
  function Group(pairs: seq<(string, string)>): (m: Query)
    ensures forall k :: k in m ==> 0 < |m[k]| <= |pairs|
    decreases |pairs|
  {
    if pairs == [] then map[]
    else
      var m := Group(pairs[..|pairs| - 1]);
      var (k, v) := pairs[|pairs| - 1];
      m[k := (if k in m then m[k] else []) + [v]]
  }

  /** Reference definition: the values paired with `name`, in order. */
  function ValuesFor(pairs: seq<(string, string)>, name: string): seq<string>
    decreases |pairs|
  {
    if pairs == [] then []
    else
      var last := pairs[|pairs| - 1];
      ValuesFor(pairs[..|pairs| - 1], name) + (if last.0 == name then [last.1] else [])
  }

  /** `parse_qs(qs)`: no name maps to an empty list, and no value is empty. */
  function ParseQs(qs: string): (m: Query)
    ensures forall k :: k in m ==> m[k] != [] && forall j :: 0 <= j < |m[k]| ==> m[k][j] != []
  {
    var pairs := ParseQsl(qs);
    GroupValues(pairs);
    ValuesForNonEmpty(pairs);
    Group(pairs)
  }

  /** The list kept for a name is exactly the values paired with it, in input order. */
  lemma {:induction false} GroupValues(pairs: seq<(string, string)>)
    ensures forall k :: k in Group(pairs) <==> ValuesFor(pairs, k) != []
    ensures forall k :: k in Group(pairs) ==> Group(pairs)[k] == ValuesFor(pairs, k)
    decreases |pairs|
  {
    if pairs != [] {
      GroupValues(pairs[..|pairs| - 1]);
    }
  }

  lemma {:induction false} ValuesForNonEmpty(pairs: seq<(string, string)>)
    requires forall i :: 0 <= i < |pairs| ==> pairs[i].1 != []
    ensures forall k, j :: 0 <= j < |ValuesFor(pairs, k)| ==> ValuesFor(pairs, k)[j] != []
    decreases |pairs|
  {
    if pairs != [] {
      ValuesForNonEmpty(pairs[..|pairs| - 1]);
    }
  }

  // ----- plain text passes through -----

  lemma {:induction false} AsciiRunOfAscii(t: string)
    requires AllAscii(t)
    ensures AsciiRunLength(t) == |t|
    decreases |t|
  {
    if t != [] { AsciiRunOfAscii(t[1..]); }
  }

  /** Without a '%', an ASCII run's bytes are its characters. */
  lemma {:induction false} PercentBytesPlain(t: string)
    requires AllAscii(t) && '%' !in t
    ensures PercentBytes(t) == Utf8.Encode(t)
    decreases |t|
  {
    if t != [] {
      PercentBytesPlain(t[1..]);
    }
  }

  /** Text with no '%' is left as it is, as `unquote`'s shortcut for that case returns it. */
  lemma {:induction false} UnquotePlain(s: string)
    requires '%' !in s
    ensures Unquote(s) == s
    decreases |s|
  {
    if s != [] {
      if !Utf8.IsAscii(s[0]) {
        UnquotePlain(s[1..]);
        assert s == [s[0]] + s[1..];
      } else {
        var n := AsciiRunLength(s);
        assert s[0..] == s;
        SuffixWithout(s, 0, n, '%');
        PlainRun(s, n);
        UnquotePlain(s[n..]);
        assert s[..n] + s[n..] == s;
      }
    }
  }

  /** A leading ASCII run with no '%' decodes to itself. */
  lemma PlainRun(s: string, n: nat)
    requires '%' !in s && n <= |s| && AllAscii(s[..n])
    ensures Utf8.DecodeReplace(PercentBytes(s[..n])) == s[..n]
  {
    var run := s[..n];
    assert '%' !in run by { assert forall i :: 0 <= i < n ==> run[i] == s[i]; }
    PercentBytesPlain(run);
    Utf8.DecodeReplaceEncode(run);
  }

  // ----- form encoding, the partner of the decoder -----

  /** The bytes section 5.2 of the WHATWG URL Standard leaves as they are. */
  predicate IsSafeByte(b: Utf8.Byte) {
    b == 0x2A || b == 0x2D || b == 0x2E || 0x30 <= b <= 0x39 || 0x41 <= b <= 0x5A || b == 0x5F || 0x61 <= b <= 0x7A
  }

  function HexDigitChar(v: nat): (c: char)
    requires v < 16
    ensures IsHexDigit(c) && HexValue(c) == v && c != '+' && c != '&' && c != '='
  {
    if v < 10 then ('0' as int + v) as char else ('A' as int + v - 10) as char
  }

  /** The form-urlencoded byte serializer for one byte: space as '+', safe bytes as themselves, others as %XX. */
  function EncodeByte(b: Utf8.Byte): (t: string)
    ensures 1 <= |t| && AllAscii(t) && '&' !in t && '=' !in t
  {
    if b == 0x20 then "+"
    else if IsSafeByte(b) then [b as char]
    else ['%', HexDigitChar(b / 16), HexDigitChar(b % 16)]
  }

  function EncodeBytes(bs: seq<Utf8.Byte>): (t: string)
    ensures |t| >= |bs| && AllAscii(t) && '&' !in t && '=' !in t
    decreases |bs|
  {
    if bs == [] then [] else EncodeByte(bs[0]) + EncodeBytes(bs[1..])
  }

  /** How a browser submits a form field: the UTF-8 bytes, serialized. */
  function FormEncode(s: string): (t: string)
    ensures |t| >= |s| && AllAscii(t) && '&' !in t && '=' !in t
  {
    EncodeBytes(Utf8.Encode(s))
  }

  lemma PlusToSpaceAppend(a: string, b: string)
    ensures PlusToSpace(a + b) == PlusToSpace(a) + PlusToSpace(b)
  {
  }

  lemma EncodeByteDecodes(b: Utf8.Byte, rest: string)
    requires AllAscii(rest)
    ensures AllAscii(PlusToSpace(EncodeByte(b)) + rest)
    ensures PercentBytes(PlusToSpace(EncodeByte(b)) + rest) == [b] + PercentBytes(rest)
  {
    var t := PlusToSpace(EncodeByte(b)) + rest;
    if b == 0x20 {
      assert t == [' '] + rest;
      assert t[1..] == rest;
    } else if IsSafeByte(b) {
      assert t == [b as char] + rest;
      assert t[1..] == rest;
    } else {
      assert t == ['%', HexDigitChar(b / 16), HexDigitChar(b % 16)] + rest;
      assert t[3..] == rest;
    }
  }

  lemma {:induction false} EncodeBytesDecode(bs: seq<Utf8.Byte>)
    ensures AllAscii(PlusToSpace(EncodeBytes(bs)))
    ensures PercentBytes(PlusToSpace(EncodeBytes(bs))) == bs
    decreases |bs|
  {
    if bs != [] {
      EncodeBytesDecode(bs[1..]);
      PlusToSpaceAppend(EncodeByte(bs[0]), EncodeBytes(bs[1..]));
      EncodeByteDecodes(bs[0], PlusToSpace(EncodeBytes(bs[1..])));
    }
  }

  /** An all-ASCII text is one run: `unquote` decodes its bytes as a whole. */
  lemma UnquoteAscii(t: string)
    requires AllAscii(t)
    ensures Unquote(t) == Utf8.DecodeReplace(PercentBytes(t))
  {
    if t != [] {
      AsciiRunOfAscii(t);
      assert t[..|t|] == t;
    }
  }

  /** Decoding what a form submission encodes gives back the text: '+', '%', '&' and '=' included. */
  lemma DecodeFormEncoded(s: string)
    ensures DecodeComponent(FormEncode(s)) == s
  {
    EncodeBytesDecode(Utf8.Encode(s));
    UnquoteAscii(PlusToSpace(FormEncode(s)));
    Utf8.DecodeReplaceEncode(s);
  }

  function Field(pair: (string, string)): string {
    FormEncode(pair.0) + "=" + FormEncode(pair.1)
  }

  /** A query string as a form submission writes it: encoded fields joined by '&'. */
  function Serialize(pairs: seq<(string, string)>): string
    decreases |pairs|
  {
    if pairs == [] then ""
    else if |pairs| == 1 then Field(pairs[0])
    else Field(pairs[0]) + "&" + Serialize(pairs[1..])
  }

  lemma ParseEncodedField(pair: (string, string))
    requires pair.1 != []
    ensures ParseField(Field(pair)) == [pair]
  {
    var (n, v) := pair;
    var en, ev := FormEncode(n), FormEncode(v);
    var f := Field(pair);
    assert f == en + ("=" + ev);
    IndexOfSkip(en, "=" + ev, "=");
    IndexOfFront("=", ev);
    assert IndexOf(f, "=") == Some(|en|);
    assert f[..|en|] == en;
    assert f[|en| + 1..] == ev;
    assert |en| + 1 < |f|;
    DecodeFormEncoded(n);
    DecodeFormEncoded(v);
  }

  lemma ParseFieldsCons(f: string, fs: seq<string>)
    ensures ParseFields([f] + fs) == ParseField(f) + ParseFields(fs)
  {
    assert ([f] + fs)[1..] == fs;
  }

  lemma ParseSerializedOne(pair: (string, string))
    requires pair.1 != []
    ensures ParseQsl(Serialize([pair])) == [pair]
  {
    SplitNone(Field(pair), "&");
    ParseEncodedField(pair);
    ParseFieldsCons(Field(pair), []);
    assert [Field(pair)] + [] == [Field(pair)];
  }

  /** Parsing a serialized list of pairs gives the list back, when no value is empty. */
  lemma {:induction false} ParseSerialized(pairs: seq<(string, string)>)
    requires forall i :: 0 <= i < |pairs| ==> pairs[i].1 != []
    ensures ParseQsl(Serialize(pairs)) == pairs
    decreases |pairs|
  {
    if pairs == [] {
      SplitNone("", "&");
      assert ParseField("") == [];
    } else if |pairs| == 1 {
      ParseSerializedOne(pairs[0]);
      assert pairs == [pairs[0]];
    } else {
      ParseSerialized(pairs[1..]);
      ParseSerializedCons(pairs[0], pairs[1..]);
      assert pairs == [pairs[0]] + pairs[1..];
    }
  }

  lemma ParseSerializedCons(pair: (string, string), more: seq<(string, string)>)
    requires pair.1 != [] && more != []
    requires ParseQsl(Serialize(more)) == more
    ensures ParseQsl(Serialize([pair] + more)) == [pair] + more
  {
    var rest := Serialize(more);
    assert ([pair] + more)[1..] == more;
    assert Serialize([pair] + more) == Field(pair) + "&" + rest;
    SplitFirst(Field(pair), rest, "&");
    ParseFieldsCons(Field(pair), Split(rest, "&"));
    ParseEncodedField(pair);
  }

  /** So `parse_qs` of a serialized list keeps, for every name, its values in their input order. */
  lemma ParseQsOfSerialized(pairs: seq<(string, string)>)
    requires forall i :: 0 <= i < |pairs| ==> pairs[i].1 != []
    ensures forall k :: k in ParseQs(Serialize(pairs)) <==> ValuesFor(pairs, k) != []
    ensures forall k :: k in ParseQs(Serialize(pairs)) ==> ParseQs(Serialize(pairs))[k] == ValuesFor(pairs, k)
  {
    ParseSerialized(pairs);
    GroupValues(pairs);
  }

  /** A field whose value is blank is dropped. */
  lemma DropsBlankValue(name: string, rest: string)
    requires '&' !in name && '=' !in name
    ensures ParseQsl(name + "=&" + rest) == ParseQsl(rest)
  {
    SplitFirst(name + "=", rest, "&");
    assert name + "=&" + rest == (name + "=") + "&" + rest;
    IndexOfSkip(name, "=", "=");
    IndexOfFront("=", []);
    assert "=" + [] == "=";
    assert ParseField(name + "=") == [];
    assert Split(name + "=&" + rest, "&")[1..] == Split(rest, "&");
  }

  /** A field without '=' is dropped. */
  lemma DropsBareName(name: string, rest: string)
    requires '&' !in name && '=' !in name
    ensures ParseQsl(name + "&" + rest) == ParseQsl(rest)
  {
    SplitFirst(name, rest, "&");
    IndexOfSkip(name, [], "=");
    assert name + [] == name;
    assert Split(name + "&" + rest, "&")[1..] == Split(rest, "&");
  }

  predicate Plain(s: string) { '+' !in s && '%' !in s && '&' !in s && '=' !in s }

  /** A field of plain text is one pair, stored verbatim. */
  lemma PlainField(name: string, value: string)
    requires Plain(name) && Plain(value) && value != []
    ensures ParseField(name + "=" + value) == [(name, value)]
  {
    var f := name + "=" + value;
    IndexOfSkip(name, "=" + value, "=");
    IndexOfFront("=", value);
    assert f == name + ("=" + value);
    assert f[..|name|] == name;
    assert f[|name| + 1..] == value;
  }

  /** A query of one plain field gives one name with one value. */
  lemma PlainQuery(name: string, value: string)
    requires Plain(name) && Plain(value) && value != []
    ensures ParseQs(name + "=" + value) == map[name := [value]]
  {
    var f := name + "=" + value;
    SplitNone(f, "&");
    PlainField(name, value);
    ParseFieldsCons(f, []);
    assert [f] + [] == [f];
    assert ParseQsl(f) == [(name, value)];
    var pairs := [(name, value)];
    GroupValues(pairs);
    assert pairs[..0] == [];
    assert ValuesFor(pairs, name) == [value];
    assert forall k :: k in Group(pairs) <==> k == name;
  }

  lemma TwoPlainFields(n1: string, v1: string, n2: string, v2: string)
    requires Plain(n1) && Plain(v1) && v1 != [] && Plain(n2) && Plain(v2) && v2 != []
    ensures ParseQsl(n1 + "=" + v1 + "&" + n2 + "=" + v2) == [(n1, v1), (n2, v2)]
  {
    var f1, f2 := n1 + "=" + v1, n2 + "=" + v2;
    assert n1 + "=" + v1 + "&" + n2 + "=" + v2 == f1 + "&" + f2;
    assert '&' !in f1 && '&' !in f2 by {
      assert f1 == n1 + ("=" + v1) && f2 == n2 + ("=" + v2);
    }
    SplitFirst(f1, f2, "&");
    SplitNone(f2, "&");
    assert Split(f1 + "&" + f2, "&") == [f1] + [f2];
    PlainField(n1, v1);
    PlainField(n2, v2);
    ParseFieldsCons(f1, [f2]);
    ParseFieldsCons(f2, []);
    assert [f2] + [] == [f2];
    assert ParseFields([f2]) == [(n2, v2)];
    assert ParseFields([f1] + [f2]) == [(n1, v1)] + [(n2, v2)];
  }

  /** A name given twice with plain values keeps both values, in input order. */
  lemma RepeatedName(name: string, v1: string, v2: string)
    requires Plain(name) && Plain(v1) && v1 != [] && Plain(v2) && v2 != []
    ensures ParseQs(name + "=" + v1 + "&" + name + "=" + v2) == map[name := [v1, v2]]
  {
    TwoPlainFields(name, v1, name, v2);
    var pairs := [(name, v1), (name, v2)];
    assert pairs[..1] == [(name, v1)];
    assert pairs[..1][..0] == [];
    assert Group(pairs[..1]) == map[][name := [] + [v1]];
    assert [] + [v1] == [v1] && [v1] + [v2] == [v1, v2];
    assert Group(pairs) == map[name := [v1]][name := [v1] + [v2]];
    assert map[name := [v1]][name := [v1, v2]] == map[name := [v1, v2]];
  }
}
