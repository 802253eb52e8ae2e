/**
 * The base 64 encoding of section 4 of RFC 4648 (alphabet A-Z a-z 0-9 + /,
 * `=` padding), and the browser's `atob`, which decodes it by the
 * "forgiving-base64 decode" algorithm of the WHATWG Infra standard:
 * ASCII whitespace is ignored, padding is optional, and anything else
 * outside the alphabet is an error.
 */
module Base64 {

  import opened Wrappers
  import opened Text

  /** The character with value `i` in the base 64 alphabet. */
  function Char(i: int): char
    requires 0 <= i < 64
  {
    if i < 26 then ('A' as int + i) as char
    else if i < 52 then ('a' as int + i - 26) as char
    else if i < 62 then ('0' as int + i - 52) as char
    else if i == 62 then '+'
    else '/'
  }

  predicate InAlphabet(c: char) {
    ('A' <= c <= 'Z') || ('a' <= c <= 'z') || ('0' <= c <= '9') || c == '+' || c == '/'
  }

  /** The value of an alphabet character: the inverse of `Char`. */
  function Value(c: char): (i: int)
    requires InAlphabet(c)
    ensures 0 <= i < 64 && Char(i) == c
  {
    if 'A' <= c <= 'Z' then c as int - 'A' as int
    else if 'a' <= c <= 'z' then c as int - 'a' as int + 26
    else if '0' <= c <= '9' then c as int - '0' as int + 52
    else if c == '+' then 62
    else 63
  }

  lemma CharValue(i: int)
    requires 0 <= i < 64
    ensures InAlphabet(Char(i)) && Value(Char(i)) == i
  {
  }

  /** The four characters of three bytes (a full group). */
  function Quad(b0: byte, b1: byte, b2: byte): (s: string)
    ensures |s| == 4 && forall i :: 0 <= i < 4 ==> InAlphabet(s[i])
  {
    [Char(b0 / 4), Char(b0 % 4 * 16 + b1 / 16), Char(b1 % 16 * 4 + b2 / 64), Char(b2 % 64)]
  }

  /** Base 64 text of `b` without padding: four characters per three bytes, then two or three for a final partial group. */
  function EncodeGroups(b: seq<byte>): (s: string)
    ensures forall i :: 0 <= i < |s| ==> InAlphabet(s[i])
    ensures |s| == |b| / 3 * 4 + (if |b| % 3 == 0 then 0 else |b| % 3 + 1)
    decreases |b|
  {
    if |b| == 0 then ""
    else if |b| == 1 then Quad(b[0], 0, 0)[..2]
    else if |b| == 2 then Quad(b[0], b[1], 0)[..3]
    else Quad(b[0], b[1], b[2]) + EncodeGroups(b[3..])
  }

  lemma QuadLength(q: int, k: int)
    requires 0 <= k < 4
    ensures (q * 4 + k) % 4 == k
  {
  }

  /** The unpadded text has 0, 2 or 3 characters beyond its last full group of four. */
  lemma GroupsLength(b: seq<byte>)
    ensures |EncodeGroups(b)| % 4 == (if |b| % 3 == 0 then 0 else |b| % 3 + 1)
  {
    var q, k := |b| / 3, if |b| % 3 == 0 then 0 else |b| % 3 + 1;
    assert |EncodeGroups(b)| == q * 4 + k;
    QuadLength(q, k);
  }

  function Padding(n: nat): string {
    if n % 3 == 1 then "==" else if n % 3 == 2 then "=" else ""
  }

  /** Base 64 text of `b`, padded with `=` to a multiple of four characters. */
  function Encode(b: seq<byte>): string {
    EncodeGroups(b) + Padding(|b|)
  }

  /** The short test vectors of section 10 of RFC 4648: "f", "fo" and "foo". */
  lemma ShortTestVectors()
    ensures Encode([102]) == "Zg=="
    ensures Encode([102, 111]) == "Zm8="
    ensures Encode([102, 111, 111]) == "Zm9v"
  {
    assert EncodeGroups([102]) == Quad(102, 0, 0)[..2] == "Zg";
    assert EncodeGroups([102, 111]) == Quad(102, 111, 0)[..3] == "Zm8";
    assert EncodeGroups([102, 111, 111]) == "Zm9v" by {
      assert [102, 111, 111][3..] == [];
    }
  }

  /** The longest test vector of section 10 of RFC 4648: "foobar" encodes to "Zm9vYmFy". */
  lemma FoobarTestVector()
    ensures Encode([102, 111, 111, 98, 97, 114]) == "Zm9vYmFy"
  {
    var b: seq<byte> := [102, 111, 111, 98, 97, 114];
    assert EncodeGroups(b[3..][3..]) == "" by {
      assert b[3..][3..] == [];
    }
    assert EncodeGroups(b[3..]) == "YmFy" by {
      assert Quad(98, 97, 114) == "YmFy";
    }
    assert Quad(102, 111, 111) == "Zm9v";
  }

  /** The whitespace `atob` ignores: tab, line feed, form feed, carriage return and space. */
  predicate IsAsciiWhitespace(c: char) {
    c == '\t' || c == '\n' || c == '\U{000C}' || c == '\r' || c == ' '
  }

  function RemoveWhitespace(s: string): (r: string)
    ensures forall c :: c in r ==> c in s && !IsAsciiWhitespace(c)
  {
    if s == [] then []
    else (if IsAsciiWhitespace(s[0]) then [] else [s[0]]) + RemoveWhitespace(s[1..])
  }

  /** One character: whitespace is dropped, anything else kept. */
  lemma RemoveWhitespaceChar(c: char)
    ensures RemoveWhitespace([c]) == if IsAsciiWhitespace(c) then [] else [c]
  {
    assert [c][1..] == [];
  }

  /**
   * Whitespace removal works character by character: on a concatenation it
   * is the removal from each part, so every other character is kept, in order.
   */
  lemma {:induction false} RemoveWhitespaceAppend(a: string, b: string)
    ensures RemoveWhitespace(a + b) == RemoveWhitespace(a) + RemoveWhitespace(b)
    decreases |a|
  {
    if a == [] {
      assert a + b == b;
    } else {
      RemoveWhitespaceFirst(a, b);
      RemoveWhitespaceAppend(a[1..], b);
      var x := if IsAsciiWhitespace(a[0]) then [] else [a[0]];
      var ra, rb := RemoveWhitespace(a[1..]), RemoveWhitespace(b);
      assert x + (ra + rb) == (x + ra) + rb;
    }
  }

  /** The first character of a non-empty left part is handled first. */
  lemma RemoveWhitespaceFirst(a: string, b: string)
    requires a != []
    ensures RemoveWhitespace(a + b) == (if IsAsciiWhitespace(a[0]) then [] else [a[0]]) + RemoveWhitespace(a[1..] + b)
  {
    assert (a + b)[0] == a[0];
    assert (a + b)[1..] == a[1..] + b;
  }

  /** Drops one or two trailing `=` when the length is a multiple of four. */
  function StripPadding(s: string): string {
    if |s| % 4 == 0 && |s| >= 2 && s[|s| - 2] == '=' && s[|s| - 1] == '=' then s[..|s| - 2]
    else if |s| % 4 == 0 && |s| >= 1 && s[|s| - 1] == '=' then s[..|s| - 1]
    else s
  }

  /** The three bytes of four alphabet characters (a full group). */
  function Triple(c0: char, c1: char, c2: char, c3: char): seq<byte>
    requires InAlphabet(c0) && InAlphabet(c1) && InAlphabet(c2) && InAlphabet(c3)
  {
    [Value(c0) * 4 + Value(c1) / 16, Value(c1) % 16 * 16 + Value(c2) / 4, Value(c2) % 4 * 64 + Value(c3)]
  }

  /**
   * Bytes of unpadded base 64 text; a final partial group keeps its leading
   * 8 or 16 bits. (A single leftover character, which `Decode` rejects
   * beforehand, gives nothing.)
   */
  function DecodeGroups(s: string): seq<byte>
    requires forall i :: 0 <= i < |s| ==> InAlphabet(s[i])
    decreases |s|
  {
    if |s| <= 1 then []
    else if |s| == 2 then Triple(s[0], s[1], 'A', 'A')[..1]
    else if |s| == 3 then Triple(s[0], s[1], s[2], 'A')[..2]
    else Triple(s[0], s[1], s[2], s[3]) + DecodeGroups(s[4..])
  }

  /** Forgiving base 64 decode: `None` where `atob` throws an InvalidCharacterError. */
  function Decode(s: string): Option<seq<byte>> {
    var t := StripPadding(RemoveWhitespace(s));
    if |t| % 4 == 1 || exists i :: 0 <= i < |t| && !InAlphabet(t[i]) then None
    else Some(DecodeGroups(t))
  }

  /** The "binary string" whose character codes are the bytes `b`. */
  function BinaryString(b: seq<byte>): (r: string)
    ensures |r| == |b| && forall i :: 0 <= i < |b| ==> r[i] as int == b[i]
  {
    seq(|b|, i requires 0 <= i < |b| => b[i] as char)
  }

  /** `atob`: the decoded bytes as a binary string, or `None` where it throws. */
  function Atob(s: string): (r: Option<string>)
    ensures r.Some? ==> forall i :: 0 <= i < |r.value| ==> r.value[i] as int < 256
    ensures r.Some? <==> Decode(s).Some?
    ensures r.Some? ==> |r.value| == |Decode(s).value| && forall i :: 0 <= i < |r.value| ==> r.value[i] as int == Decode(s).value[i]
  {
    match Decode(s)
    case None => None
    case Some(b) => Some(BinaryString(b))
  }

  /** The three bytes of a group, rebuilt from its four 6-bit values. */
  lemma FirstByte(b0: byte, b1: byte)
    ensures b0 / 4 * 4 + (b0 % 4 * 16 + b1 / 16) / 16 == b0
  {
    assert b1 / 16 < 16;
    assert (b0 % 4 * 16 + b1 / 16) / 16 == b0 % 4;
  }

  lemma SecondByte(b0: byte, b1: byte, b2: byte)
    ensures (b0 % 4 * 16 + b1 / 16) % 16 * 16 + (b1 % 16 * 4 + b2 / 64) / 4 == b1
  {
    assert b1 / 16 < 16;
    assert (b0 % 4 * 16 + b1 / 16) % 16 == b1 / 16;
    assert b2 / 64 < 4;
    assert (b1 % 16 * 4 + b2 / 64) / 4 == b1 % 16;
  }

  lemma ThirdByte(b1: byte, b2: byte)
    ensures (b1 % 16 * 4 + b2 / 64) % 4 * 64 + b2 % 64 == b2
  {
    assert b2 / 64 < 4;
    assert (b1 % 16 * 4 + b2 / 64) % 4 == b2 / 64;
  }

  /** One full group: the four 6-bit values of three bytes give the three bytes back. */
  lemma QuadTriple(b0: byte, b1: byte, b2: byte)
    ensures var q := Quad(b0, b1, b2); Triple(q[0], q[1], q[2], q[3]) == [b0, b1, b2]
  {
    var v0, v1, v2, v3 := b0 / 4, b0 % 4 * 16 + b1 / 16, b1 % 16 * 4 + b2 / 64, b2 % 64;
    CharValue(v0);
    CharValue(v1);
    CharValue(v2);
    CharValue(v3);
    FirstByte(b0, b1);
    SecondByte(b0, b1, b2);
    ThirdByte(b1, b2);
    var q := Quad(b0, b1, b2);
    assert Value(q[0]) == v0 && Value(q[1]) == v1 && Value(q[2]) == v2 && Value(q[3]) == v3;
  }

  /** The first step of decoding the text of three or more bytes: their first group, then the rest. */
  lemma FullGroupStep(b: seq<byte>)
    requires |b| >= 3
    ensures DecodeGroups(EncodeGroups(b)) == [b[0], b[1], b[2]] + DecodeGroups(EncodeGroups(b[3..]))
  {
    var s := EncodeGroups(b);
    var q := Quad(b[0], b[1], b[2]);
    var t := EncodeGroups(b[3..]);
    assert s == q + t;
    assert s[..4] == q && s[4..] == t;
    assert DecodeGroups(s) == Triple(q[0], q[1], q[2], q[3]) + DecodeGroups(t);
    QuadTriple(b[0], b[1], b[2]);
  }

  /** A final group of two bytes: three characters give the two bytes back. */
  lemma PartialTwo(b0: byte, b1: byte)
    ensures DecodeGroups(Quad(b0, b1, 0)[..3]) == [b0, b1]
  {
    QuadTriple(b0, b1, 0);
  }

  /** A final group of one byte: two characters give the byte back. */
  lemma PartialOne(b0: byte)
    ensures DecodeGroups(Quad(b0, 0, 0)[..2]) == [b0]
  {
    QuadTriple(b0, 0, 0);
  }

  lemma {:induction false} GroupsRoundTrip(b: seq<byte>)
    ensures DecodeGroups(EncodeGroups(b)) == b
    decreases |b|
  {
    if |b| >= 3 {
      assert b[..3] == [b[0], b[1], b[2]];
      assert b == b[..3] + b[3..];
      FullGroupStep(b);
      GroupsRoundTrip(b[3..]);
    } else if |b| == 2 {
      PartialTwo(b[0], b[1]);
      assert b == [b[0], b[1]];
    } else if |b| == 1 {
      PartialOne(b[0]);
      assert b == [b[0]];
    }
  }

  lemma NoWhitespaceUnchanged(s: string)
    requires forall i :: 0 <= i < |s| ==> !IsAsciiWhitespace(s[i])
    ensures RemoveWhitespace(s) == s
  {
    if s != [] {
      NoWhitespaceUnchanged(s[1..]);
    }
  }

  /** `StripPadding` takes off exactly the padding that `Encode` puts on alphabet text. */
  lemma PaddingOff(n: nat, g: string)
    requires forall i :: 0 <= i < |g| ==> InAlphabet(g[i])
    requires |g| % 4 == (if n % 3 == 0 then 0 else n % 3 + 1)
    ensures StripPadding(g + Padding(n)) == g
  {
    var p := Padding(n);
    var s := g + p;
    if |g| > 0 { assert InAlphabet(g[|g| - 1]); }
    if p == "" {
      assert s == g;
    } else if p == "=" {
      assert s[|s| - 2] == g[|g| - 1];
      assert s[..|s| - 1] == g;
    } else {
      assert s[..|s| - 2] == g;
    }
  }

  lemma PaddingRemoved(b: seq<byte>)
    ensures StripPadding(Encode(b)) == EncodeGroups(b)
  {
    GroupsLength(b);
    PaddingOff(|b|, EncodeGroups(b));
  }

  lemma WhitespaceFree(b: seq<byte>)
    ensures RemoveWhitespace(Encode(b)) == Encode(b)
  {
    var g := EncodeGroups(b);
    var s := Encode(b);
    forall i | 0 <= i < |s| ensures !IsAsciiWhitespace(s[i]) {
      if i < |g| { assert s[i] == g[i]; }
    }
    NoWhitespaceUnchanged(s);
  }

  /** Text that is unpadded alphabet text once whitespace and padding are removed is decoded group by group. */
  lemma DecodeClean(s: string, g: string)
    requires StripPadding(RemoveWhitespace(s)) == g
    requires forall i :: 0 <= i < |g| ==> InAlphabet(g[i])
    requires |g| % 4 != 1
    ensures Decode(s) == Some(DecodeGroups(g))
  {
  }

  /** Codec round trip: `atob` of the base 64 text of any bytes decodes to those bytes. */
  lemma {:induction false} DecodeEncode(b: seq<byte>)
    ensures Decode(Encode(b)) == Some(b)
    ensures Atob(Encode(b)) == Some(BinaryString(b))
  {
    var g := EncodeGroups(b);
    assert StripPadding(RemoveWhitespace(Encode(b))) == g by {
      WhitespaceFree(b);
      PaddingRemoved(b);
    }
    GroupsLength(b);
    DecodeClean(Encode(b), g);
    GroupsRoundTrip(b);
  }
}
