/** `encodeURIComponent` as section 15.1.3.4 of ECMA-262 5.1 defines it: every
    character outside the unreserved set `A-Z a-z 0-9 - _ . ! ~ * ' ( )` is
    replaced by the `%XX` escapes of its UTF-8 octets (upper-case hex). */
module Uri {

  import opened Results

  type Byte = b: int | 0 <= b < 256

  /** The characters `encodeURIComponent` leaves as they are. */
  predicate IsUnreserved(c: char) {
    ('A' <= c <= 'Z') || ('a' <= c <= 'z') || ('0' <= c <= '9') ||
    c == '-' || c == '_' || c == '.' || c == '!' || c == '~' || c == '*' || c == '\'' || c == '(' || c == ')'
  }

  /** The UTF-8 octets of one Unicode scalar value (RFC 3629, section 3): a
      lead octet and up to three continuation octets of six bits each. */
  function Utf8(c: char): (bs: seq<Byte>)
    ensures 1 <= |bs| <= 4
    ensures c as int < 0x80 ==> bs == [c as int]
  {
    var cp := c as int;
    if cp < 0x80 then [cp]
    else if cp < 0x800 then [0xC0 + cp / 0x40] + Continuations(cp, 1)
    else if cp < 0x1_0000 then [0xE0 + cp / 0x1000] + Continuations(cp, 2)
    else [0xF0 + cp / 0x4_0000] + Continuations(cp, 3)
  }

  /** The last `n` groups of six bits of `cp`, each as a continuation octet. */
  function Continuations(cp: nat, n: nat): (bs: seq<Byte>)
    ensures |bs| == n
    decreases n
  {
    if n == 0 then [] else Continuations(cp / 0x40, n - 1) + [0x80 + cp % 0x40]
  }

  /** The UTF-8 octets of a whole string. */
  function Utf8String(s: string): seq<Byte>
    decreases |s|
  {
    if s == [] then [] else Utf8(s[0]) + Utf8String(s[1..])
  }

  function HexDigit(d: int): (c: char)
    requires 0 <= d < 16
  {
    if d < 10 then ('0' as int + d) as char else ('A' as int + d - 10) as char
  }

  predicate IsHexDigit(c: char) {
    ('0' <= c <= '9') || ('A' <= c <= 'F') || ('a' <= c <= 'f')
  }

  function HexValue(c: char): (d: int)
    requires IsHexDigit(c)
    ensures 0 <= d < 16
  {
    if '0' <= c <= '9' then c as int - '0' as int
    else if 'A' <= c <= 'F' then c as int - 'A' as int + 10
    else c as int - 'a' as int + 10
  }

  lemma HexDigitValue(d: int)
    requires 0 <= d < 16
    ensures IsHexDigit(HexDigit(d)) && HexValue(HexDigit(d)) == d
  {
  }

  /** The escape `%XY` of one octet, with upper-case hexadecimal digits. */
  function Escape(b: Byte): (r: string)
    ensures |r| == 3
  {
    ['%', HexDigit(b / 16), HexDigit(b % 16)]
  }

  /** `%XY` for each octet, in order. */
  function Escapes(bs: seq<Byte>): (r: string)
    ensures |r| == 3 * |bs|
    decreases |bs|
  {
    if bs == [] then [] else Escape(bs[0]) + Escapes(bs[1..])
  }

  function EncodeChar(c: char): (r: string)
    ensures |r| >= 1
  {
    if IsUnreserved(c) then [c] else Escapes(Utf8(c))
  }

  /** `encodeURIComponent(s)`: each character in turn, unreserved ones as they
      are and the others as the escapes of their UTF-8 octets. */
  function EncodeURIComponent(s: string): (r: string)
    ensures |r| >= |s|
    decreases |s|
  {
    if s == [] then [] else EncodeChar(s[0]) + EncodeURIComponent(s[1..])
  }

  /** A character that may appear in an encoded component. */
  predicate IsEncodedChar(c: char) {
    c == '%' || IsUnreserved(c)
  }

  predicate AllEncodedChars(s: string) {
    forall i :: 0 <= i < |s| ==> IsEncodedChar(s[i])
  }

  lemma AllEncodedCharsAppend(a: string, b: string)
    requires AllEncodedChars(a) && AllEncodedChars(b)
    ensures AllEncodedChars(a + b)
  {
    forall i | 0 <= i < |a + b|
      ensures IsEncodedChar((a + b)[i])
    {
      if i >= |a| {
        assert (a + b)[i] == b[i - |a|];
      }
    }
  }

  lemma {:induction false} EscapesAreEncodedChars(bs: seq<Byte>)
    ensures AllEncodedChars(Escapes(bs))
    decreases |bs|
  {
    if bs != [] {
      EscapesAreEncodedChars(bs[1..]);
      var head := Escape(bs[0]);
      assert AllEncodedChars(head);
      AllEncodedCharsAppend(head, Escapes(bs[1..]));
    }
  }

  lemma EncodeCharIsEncoded(c: char)
    ensures AllEncodedChars(EncodeChar(c))
  {
    if !IsUnreserved(c) {
      EscapesAreEncodedChars(Utf8(c));
    }
  }

  /** What remains in the output of `encodeURIComponent` is unreserved or a `%`
      that starts an escape. */
  lemma {:induction false} EncodedChars(s: string)
    ensures AllEncodedChars(EncodeURIComponent(s))
    decreases |s|
  {
    if s != [] {
      EncodedChars(s[1..]);
      EncodeCharIsEncoded(s[0]);
      AllEncodedCharsAppend(EncodeChar(s[0]), EncodeURIComponent(s[1..]));
    }
  }

  lemma EncodedCharsAreNotDelimiters(r: string)
    requires AllEncodedChars(r)
    ensures '&' !in r && '=' !in r && '[' !in r && ']' !in r
  {
  }

  /** So an encoded component never holds `&`, `=`, `[` or `]`. */
  lemma EncodedHasNoDelimiters(s: string)
    ensures var r := EncodeURIComponent(s); '&' !in r && '=' !in r && '[' !in r && ']' !in r
  {
    EncodedChars(s);
    EncodedCharsAreNotDelimiters(EncodeURIComponent(s));
  }

  function Prepend(bs: seq<Byte>, rest: Option<seq<Byte>>): Option<seq<Byte>> {
    if rest.Some? then Some(bs + rest.value) else None
  }

  /** The octets an encoded component stands for when `%XY` is one octet and
      any other character is its own UTF-8 octets; a `%` without two hex
      digits is malformed. */
  function Octets(s: string): Option<seq<Byte>>
    decreases |s|
  {
    if s == [] then Some([])
    else if s[0] == '%' then
      if |s| >= 3 && IsHexDigit(s[1]) && IsHexDigit(s[2]) then
        Prepend([HexValue(s[1]) * 16 + HexValue(s[2])], Octets(s[3..]))
      else None
    else Prepend(Utf8(s[0]), Octets(s[1..]))
  }

  lemma {:induction false} OctetsOfEscapes(bs: seq<Byte>, rest: string)
    ensures Octets(Escapes(bs) + rest) == Prepend(bs, Octets(rest))
    decreases |bs|
  {
    if bs == [] {
      assert Escapes(bs) + rest == rest;
      PrependNothing(Octets(rest));
    } else {
      var tail := Escapes(bs[1..]);
      assert Escapes(bs) + rest == Escape(bs[0]) + (tail + rest);
      OctetsOfEscape(bs[0], tail + rest);
      OctetsOfEscapes(bs[1..], rest);
      PrependTwice([bs[0]], bs[1..], Octets(rest));
      assert [bs[0]] + bs[1..] == bs;
    }
  }

  lemma PrependNothing(o: Option<seq<Byte>>)
    ensures Prepend([], o) == o
  {
    if o.Some? {
      assert [] + o.value == o.value;
    }
  }

  lemma PrependTwice(a: seq<Byte>, b: seq<Byte>, o: Option<seq<Byte>>)
    ensures Prepend(a, Prepend(b, o)) == Prepend(a + b, o)
  {
    if o.Some? {
      assert a + (b + o.value) == (a + b) + o.value;
    }
  }

  lemma OctetsOfEscape(b: Byte, rest: string)
    ensures Octets(Escape(b) + rest) == Prepend([b], Octets(rest))
  {
    var s := Escape(b) + rest;
    HexDigitValue(b / 16);
    HexDigitValue(b % 16);
    assert HexValue(s[1]) * 16 + HexValue(s[2]) == b;
    assert s[3..] == rest;
  }

  lemma OctetsOfEncodeChar(c: char, rest: string)
    ensures Octets(EncodeChar(c) + rest) == Prepend(Utf8(c), Octets(rest))
  {
    if IsUnreserved(c) {
      assert ([c] + rest)[1..] == rest;
    } else {
      OctetsOfEscapes(Utf8(c), rest);
    }
  }

  /** Decoding the escapes of `encodeURIComponent(s)` gives exactly the UTF-8
      octets of `s`. */
  lemma {:induction false} OctetsOfEncode(s: string)
    ensures Octets(EncodeURIComponent(s)) == Some(Utf8String(s))
    decreases |s|
  {
    if s != [] {
      OctetsOfEncodeChar(s[0], EncodeURIComponent(s[1..]));
      OctetsOfEncode(s[1..]);
    }
  }

  /** The number of octets of a sequence whose lead octet is `b`. */
  function LeadLength(b: Byte): nat {
    if b < 0x80 then 1 else if b < 0xE0 then 2 else if b < 0xF0 then 3 else 4
  }

  /** The scalar value the octets of one character spell out: the payload
      bits of the lead octet, then six bits per continuation octet. */
  function CodePoint(bs: seq<Byte>): int
    requires 1 <= |bs| <= 4
  {
    var lead: int := bs[0];
    if |bs| == 1 then lead
    else
      var tail := Payload(bs[1..]);
      if |bs| == 2 then (lead - 0xC0) * 0x40 + tail
      else if |bs| == 3 then (lead - 0xE0) * 0x1000 + tail
      else (lead - 0xF0) * 0x4_0000 + tail
  }

  /** The six payload bits of each continuation octet, most significant first. */
  function Payload(bs: seq<Byte>): int
    decreases |bs|
  {
    if bs == [] then 0 else Payload(bs[..|bs| - 1]) * 0x40 + (bs[|bs| - 1] as int - 0x80)
  }

  /** `cp` shifted right by six bits `n` times. */
  function Shift(cp: nat, n: nat): nat
    decreases n
  {
    if n == 0 then cp else Shift(cp / 0x40, n - 1)
  }

  function Radix(n: nat): nat
    decreases n
  {
    if n == 0 then 1 else Radix(n - 1) * 0x40
  }

  /** Six more low bits under a prefix that already adds up to `x / 0x40`. */
  lemma Regroup(low: int, shifted: int, radix: int, x: nat)
    requires low + shifted * radix == x / 0x40
    ensures (low * 0x40 + x % 0x40) + shifted * (radix * 0x40) == x
  {
    assert shifted * (radix * 0x40) == (shifted * radix) * 0x40;
  }

  /** The continuation octets of `cp` carry its low `6 n` bits. */
  lemma {:induction false} PayloadOfContinuations(cp: nat, n: nat)
    ensures Payload(Continuations(cp, n)) + Shift(cp, n) * Radix(n) == cp
    decreases n
  {
    if n > 0 {
      var front := Continuations(cp / 0x40, n - 1);
      var whole := Continuations(cp, n);
      assert whole == front + [0x80 + cp % 0x40];
      assert whole[..|whole| - 1] == front;
      assert Payload(whole) == Payload(front) * 0x40 + cp % 0x40;
      PayloadOfContinuations(cp / 0x40, n - 1);
      Regroup(Payload(front), Shift(cp / 0x40, n - 1), Radix(n - 1), cp);
    }
  }

  lemma DivideTwice(x: nat)
    ensures x / 0x40 / 0x40 == x / 0x1000
    ensures x / 0x40 / 0x40 / 0x40 == x / 0x4_0000
  {
  }

  /** The lead octet tells how many octets a character takes, and the octets
      spell out the character again. */
  lemma Utf8Decodes(c: char)
    ensures LeadLength(Utf8(c)[0]) == |Utf8(c)|
    ensures CodePoint(Utf8(c)) == c as int
  {
    var cp := c as int;
    if cp >= 0x80 {
      var n := |Utf8(c)| - 1;
      var tail := Continuations(cp, n);
      assert Utf8(c)[1..] == tail;
      PayloadOfContinuations(cp, n);
      DivideTwice(cp);
      assert Shift(cp, 1) == cp / 0x40;
      assert Shift(cp, 2) == cp / 0x40 / 0x40;
      assert Shift(cp, 3) == cp / 0x40 / 0x40 / 0x40;
    }
  }

  /** Distinct characters have distinct UTF-8 octets. */
  lemma Utf8Injective(c: char, d: char)
    requires Utf8(c) == Utf8(d)
    ensures c == d
  {
    Utf8Decodes(c);
    Utf8Decodes(d);
  }

  /** Two concatenations that agree and whose first parts are equally long
      agree part by part. */
  lemma SplitEqually(a: seq<Byte>, rest: seq<Byte>, b: seq<Byte>, other: seq<Byte>)
    requires a + rest == b + other && |a| == |b|
    ensures a == b && rest == other
  {
    assert a == (a + rest)[..|a|] && b == (b + other)[..|b|];
    assert rest == (a + rest)[|a|..] && other == (b + other)[|b|..];
  }

  /** The octets of one character followed by others come apart again. */
  lemma Utf8ConsInjective(c: char, rest: seq<Byte>, d: char, other: seq<Byte>)
    requires Utf8(c) + rest == Utf8(d) + other
    ensures c == d && rest == other
  {
    var a, b := Utf8(c), Utf8(d);
    assert a[0] == (a + rest)[0] && b[0] == (b + other)[0];
    Utf8Decodes(c);
    Utf8Decodes(d);
    SplitEqually(a, rest, b, other);
    Utf8Injective(c, d);
  }

  /** Distinct strings have distinct UTF-8 octets. */
  lemma {:induction false} Utf8StringInjective(s: string, t: string)
    requires Utf8String(s) == Utf8String(t)
    ensures s == t
    decreases |s|
  {
    if s != [] && t != [] {
      Utf8ConsInjective(s[0], Utf8String(s[1..]), t[0], Utf8String(t[1..]));
      Utf8StringInjective(s[1..], t[1..]);
      assert s == [s[0]] + s[1..] && t == [t[0]] + t[1..];
    }
  }

  /** The encoding loses nothing: distinct strings encode differently. */
  lemma EncodeInjective(s: string, t: string)
    requires EncodeURIComponent(s) == EncodeURIComponent(t)
    ensures s == t
  {
    OctetsOfEncode(s);
    OctetsOfEncode(t);
    Utf8StringInjective(s, t);
  }

  /** Encoding distributes over concatenation. */
  lemma {:induction false} EncodeAppend(a: string, b: string)
    ensures EncodeURIComponent(a + b) == EncodeURIComponent(a) + EncodeURIComponent(b)
    decreases |a|
  {
    if a == [] {
      assert a + b == b;
    } else {
      assert (a + b)[0] == a[0] && (a + b)[1..] == a[1..] + b;
      EncodeAppend(a[1..], b);
    }
  }

  /** A string of unreserved characters is its own encoding. */
  lemma {:induction false} EncodeUnreserved(s: string)
    requires forall i :: 0 <= i < |s| ==> IsUnreserved(s[i])
    ensures EncodeURIComponent(s) == s
    decreases |s|
  {
    if s != [] {
      EncodeUnreserved(s[1..]);
    }
  }

  /** The bracket characters of a nested key are escaped. */
  lemma EncodeBrackets()
    ensures EncodeURIComponent("[") == "%5B" && EncodeURIComponent("]") == "%5D"
  {
  }

  /** The name `a[b]` encodes with both brackets escaped. */
  lemma EncodeNestedName()
    ensures EncodeURIComponent("a[b]") == "a%5Bb%5D"
  {
    assert EncodeChar('[') == "%5B" && EncodeChar(']') == "%5D";
    assert EncodeChar('a') == "a" && EncodeChar('b') == "b";
    assert EncodeURIComponent("]") == "%5D";
    assert EncodeURIComponent("b]") == "b" + "%5D";
    assert EncodeURIComponent("[b]") == "%5B" + "b%5D";
    assert EncodeURIComponent("a[b]") == "a" + "%5Bb%5D";
  }
}
