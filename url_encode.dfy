/**
 * The query-value encoder of `src/url_encode.rs`: a string is taken as its
 * UTF-8 bytes and each byte is written out on its own. The unreserved
 * characters of section 2.3 of RFC 3986 (ALPHA, DIGIT, "-", ".", "_", "~")
 * are copied, a space becomes "+" as in application/x-www-form-urlencoded,
 * and every other byte becomes "%" and two upper-case hex digits (section 2.1
 * of RFC 3986).
 */
module UrlEncode {
  import opened Wrappers

  type Byte = b: int | 0 <= b < 256

  // ---------------------------------------------------------------------------
  // The bytes of a string

  /** The UTF-8 encoding of one Unicode scalar value (RFC 3629, section 3). */
  function CharUtf8(c: char): (r: seq<Byte>)
    ensures 1 <= |r| <= 4 && |r| == LeadLength(r[0])
    ensures |r| == ScalarLength(c as int)
    ensures c as int < 0x80 ==> r == [c as int]
    ensures c as int >= 0x80 ==> forall k :: 0 <= k < |r| ==> r[k] >= 0x80
    ensures |r| > 1 ==> 0xC2 <= r[0] <= 0xF4
    ensures forall k :: 1 <= k < |r| ==> 0x80 <= r[k] < 0xC0
    ensures ScalarOf(r) == c as int
  {
    var n := c as int;
    if n < 0x80 then [n]
    else if n < 0x800 then TwoBytes(n)
    else if n < 0x10000 then ThreeBytes(n)
    else FourBytes(n)
  }

  function TwoBytes(n: int): (r: seq<Byte>)
    requires 0x80 <= n < 0x800
    ensures |r| == 2 && 0xC2 <= r[0] < 0xE0 && 0x80 <= r[1] < 0xC0 && ScalarOf(r) == n
  {
    [0xC0 + n / 0x40, 0x80 + n % 0x40]
  }

  function ThreeBytes(n: int): (r: seq<Byte>)
    requires 0x800 <= n < 0x10000
    ensures |r| == 3 && 0xE0 <= r[0] < 0xF0 && ScalarOf(r) == n
    ensures forall k :: 1 <= k < 3 ==> 0x80 <= r[k] < 0xC0
  {
    var hi, lo := n / 0x40, n % 0x40;
    assert n == hi * 0x40 + lo;
    [0xE0 + hi / 0x40, 0x80 + hi % 0x40, 0x80 + lo]
  }

  function FourBytes(n: int): (r: seq<Byte>)
    requires 0x10000 <= n < 0x110000
    ensures |r| == 4 && 0xF0 <= r[0] <= 0xF4 && ScalarOf(r) == n
    ensures forall k :: 1 <= k < 4 ==> 0x80 <= r[k] < 0xC0
  {
    var hi, lo := n / 0x40, n % 0x40;
    var top, mid := hi / 0x40, hi % 0x40;
    assert n == hi * 0x40 + lo;
    assert hi == top * 0x40 + mid;
    [0xF0 + top / 0x40, 0x80 + top % 0x40, 0x80 + mid, 0x80 + lo]
  }

  // ---------------------------------------------------------------------------
  // Reading UTF-8 back

  /** How many bytes a character takes, read off its first byte (RFC 3629, section 3). */
  function LeadLength(lead: Byte): nat {
    if lead < 0x80 then 1 else if lead < 0xE0 then 2 else if lead < 0xF0 then 3 else 4
  }

  /** The scalar value that one to four bytes carry: the lead byte's payload
      bits followed by six bits from each continuation byte. */
  function ScalarOf(bs: seq<Byte>): int
    requires 1 <= |bs| <= 4
  {
    var b: seq<int> := bs;
    if |b| == 1 then b[0]
    else if |b| == 2 then (b[0] - 0xC0) * 0x40 + (b[1] - 0x80)
    else if |b| == 3 then ((b[0] - 0xE0) * 0x40 + (b[1] - 0x80)) * 0x40 + (b[2] - 0x80)
    else (((b[0] - 0xF0) * 0x40 + (b[1] - 0x80)) * 0x40 + (b[2] - 0x80)) * 0x40 + (b[3] - 0x80)
  }

  /** How many bytes the shortest form of a scalar value takes: one below
      0x80, two below 0x800, three below 0x10000, four above. */
  function ScalarLength(v: int): nat {
    if v < 0x80 then 1 else if v < 0x800 then 2 else if v < 0x10000 then 3 else 4
  }

  /** A Unicode scalar value: a code point that is not a surrogate. */
  predicate IsScalar(v: int) {
    0 <= v < 0xD800 || 0xE000 <= v < 0x110000
  }

  /** One character's bytes as RFC 3629 allows them: as many as the lead byte
      announces, continuation bytes in 0x80..0xBF, a scalar value, and no
      overlong form. */
  predicate WellFormed(bs: seq<Byte>) {
    && 1 <= |bs| <= 4 && |bs| == LeadLength(bs[0])
    && (forall k :: 1 <= k < |bs| ==> 0x80 <= bs[k] < 0xC0)
    && IsScalar(ScalarOf(bs)) && ScalarLength(ScalarOf(bs)) == |bs|
  }

  /** A UTF-8 reader: the characters the bytes spell, or `None`. */
  function DecodeUtf8(bs: seq<Byte>): Option<string>
    decreases |bs|
  {
    if bs == [] then Some([])
    else
      var n := LeadLength(bs[0]);
      if n > |bs| || !WellFormed(bs[..n]) then None
      else
        match DecodeUtf8(bs[n..])
        case None => None
        case Some(rest) => Some([ScalarOf(bs[..n]) as char] + rest)
  }

  /** Reading the bytes of a string gives the string back. */
  lemma {:induction false} Utf8RoundTrip(s: string)
    ensures DecodeUtf8(Utf8(s)) == Some(s)
  {
    if s != [] {
      var head := CharUtf8(s[0]);
      var bs := Utf8(s);
      assert bs == head + Utf8(s[1..]);
      assert bs[..|head|] == head && bs[|head|..] == Utf8(s[1..]);
      Utf8RoundTrip(s[1..]);
      assert (s[0] as int) as char == s[0];
      assert s == [s[0]] + s[1..];
    }
  }

  /** Well-formed bytes are exactly the encoding of the character they carry:
      no other byte sequence is read as that character. */
  lemma CharOfBytes(bs: seq<Byte>)
    requires WellFormed(bs)
    ensures CharUtf8(ScalarOf(bs) as char) == bs
  {
    var b: seq<int> := bs;
    if |b| == 2 {
      TwoOfBytes(b[0], b[1]);
      assert bs == [b[0], b[1]];
    } else if |b| == 3 {
      ThreeOfBytes(b[0], b[1], b[2]);
      assert bs == [b[0], b[1], b[2]];
    } else if |b| == 4 {
      FourOfBytes(b[0], b[1], b[2], b[3]);
      assert bs == [b[0], b[1], b[2], b[3]];
    }
  }

  lemma TwoOfBytes(b0: int, b1: int)
    requires 0x80 <= b1 < 0xC0
    requires 0x80 <= (b0 - 0xC0) * 0x40 + (b1 - 0x80) < 0x800
    ensures TwoBytes((b0 - 0xC0) * 0x40 + (b1 - 0x80)) == [b0, b1]
  {
    var v := (b0 - 0xC0) * 0x40 + (b1 - 0x80);
    SixBits(b0 - 0xC0, b1 - 0x80);
    assert TwoBytes(v) == [0xC0 + v / 0x40, 0x80 + v % 0x40];
  }

  lemma ThreeOfBytes(b0: int, b1: int, b2: int)
    requires 0x80 <= b1 < 0xC0 && 0x80 <= b2 < 0xC0
    requires 0x800 <= ((b0 - 0xE0) * 0x40 + (b1 - 0x80)) * 0x40 + (b2 - 0x80) < 0x10000
    ensures ThreeBytes(((b0 - 0xE0) * 0x40 + (b1 - 0x80)) * 0x40 + (b2 - 0x80)) == [b0, b1, b2]
  {
    var hi := (b0 - 0xE0) * 0x40 + (b1 - 0x80);
    var v := hi * 0x40 + (b2 - 0x80);
    SixBits(hi, b2 - 0x80);
    SixBits(b0 - 0xE0, b1 - 0x80);
    assert ThreeBytes(v) == [0xE0 + (v / 0x40) / 0x40, 0x80 + (v / 0x40) % 0x40, 0x80 + v % 0x40];
  }

  lemma FourOfBytes(b0: int, b1: int, b2: int, b3: int)
    requires 0x80 <= b1 < 0xC0 && 0x80 <= b2 < 0xC0 && 0x80 <= b3 < 0xC0
    requires 0x10000 <= (((b0 - 0xF0) * 0x40 + (b1 - 0x80)) * 0x40 + (b2 - 0x80)) * 0x40 + (b3 - 0x80) < 0x110000
    ensures FourBytes((((b0 - 0xF0) * 0x40 + (b1 - 0x80)) * 0x40 + (b2 - 0x80)) * 0x40 + (b3 - 0x80))
         == [b0, b1, b2, b3]
  {
    var top := (b0 - 0xF0) * 0x40 + (b1 - 0x80);
    var hi := top * 0x40 + (b2 - 0x80);
    var v := hi * 0x40 + (b3 - 0x80);
    SixBits(hi, b3 - 0x80);
    SixBits(top, b2 - 0x80);
    SixBits(b0 - 0xF0, b1 - 0x80);
    assert FourBytes(v) == [0xF0 + ((v / 0x40) / 0x40) / 0x40, 0x80 + ((v / 0x40) / 0x40) % 0x40,
                            0x80 + (v / 0x40) % 0x40, 0x80 + v % 0x40];
  }

  lemma SixBits(q: int, r: int)
    requires 0 <= r < 0x40
    ensures (q * 0x40 + r) / 0x40 == q && (q * 0x40 + r) % 0x40 == r
  {
  }

  /** Whatever the reader accepts is the UTF-8 encoding of what it returns. */
  lemma {:induction false} DecodeUtf8Exact(bs: seq<Byte>, s: string)
    requires DecodeUtf8(bs) == Some(s)
    ensures Utf8(s) == bs
    decreases |bs|
  {
    if bs != [] {
      var n := LeadLength(bs[0]);
      DecodeStep(bs);
      var rest := DecodeUtf8(bs[n..]).value;
      CharOfBytes(bs[..n]);
      DecodeUtf8Exact(bs[n..], rest);
      assert s != [] && s[0] == ScalarOf(bs[..n]) as char && s[1..] == rest;
      assert Utf8(s) == CharUtf8(s[0]) + Utf8(s[1..]);
      assert bs == bs[..n] + bs[n..];
    }
  }

  /** The overlong three-byte form of `é` is refused; its shortest form is read. */
  lemma ExampleOverlong()
    ensures DecodeUtf8([0xE0, 0x83, 0xA9]) == None
    ensures DecodeUtf8([0xC3, 0xA9]) == Some("\U{E9}")
  {
    var long: seq<Byte> := [0xE0, 0x83, 0xA9];
    assert ScalarOf(long) == 0xE9 && ScalarLength(0xE9) == 2;
    assert long[..3] == long;
    var short: seq<Byte> := [0xC3, 0xA9];
    assert LeadLength(short[0]) == 2 && short[..2] == short && short[2..] == [];
    assert ScalarOf(short) == 0xE9 && WellFormed(short);
    assert DecodeUtf8(short) == Some([0xE9 as char] + []);
    assert [0xE9 as char] + [] == "\U{E9}";
  }

  /** One character read off the front. */
  lemma DecodeStep(bs: seq<Byte>)
    requires bs != [] && DecodeUtf8(bs).Some?
    ensures var n := LeadLength(bs[0]);
      && n <= |bs| && WellFormed(bs[..n]) && DecodeUtf8(bs[n..]).Some?
      && DecodeUtf8(bs).value == [ScalarOf(bs[..n]) as char] + DecodeUtf8(bs[n..]).value
  {
  }

  /** Different strings have different bytes. */
  lemma Utf8Injective(a: string, b: string)
    requires Utf8(a) == Utf8(b)
    ensures a == b
  {
    Utf8RoundTrip(a);
    Utf8RoundTrip(b);
  }

  /** `str::bytes`: the UTF-8 bytes of a string, character after character. */
  function Utf8(s: string): seq<Byte> {
    if s == [] then [] else CharUtf8(s[0]) + Utf8(s[1..])
  }

  lemma {:induction false} Utf8Concat(a: string, b: string)
    ensures Utf8(a + b) == Utf8(a) + Utf8(b)
  {
    if a != [] {
      assert (a + b)[0] == a[0];
      assert (a + b)[1..] == a[1..] + b;
      Utf8Concat(a[1..], b);
    } else {
      assert a + b == b;
    }
  }

  // ---------------------------------------------------------------------------
  // One byte

  /** ALPHA / DIGIT / "-" / "." / "_" / "~" as byte values. */
  predicate IsUnreserved(b: Byte) {
    ('A' as int <= b <= 'Z' as int) || ('a' as int <= b <= 'z' as int)
    || ('0' as int <= b <= '9' as int)
    || b == '-' as int || b == '.' as int || b == '_' as int || b == '~' as int
  }

  predicate IsUnreservedChar(c: char) {
    c as int < 0x80 && IsUnreserved(c as int)
  }

  /** The three arms of the encoder's `match`. */
  datatype ByteClass = Unreserved | Space | Other

  function Classify(b: Byte): ByteClass {
    if IsUnreserved(b) then Unreserved
    else if b == ' ' as int then Space
    else Other
  }

  predicate IsUpperHex(c: char) {
    '0' <= c <= '9' || 'A' <= c <= 'F'
  }

  /** `{:02X}` for one hex digit. */
  function HexDigit(d: nat): (c: char)
    requires d < 16
    ensures IsUpperHex(c)
  {
    "0123456789ABCDEF"[d]
  }

  function HexValue(c: char): (d: nat)
    requires IsUpperHex(c)
    ensures d < 16
  {
    if c <= '9' then c as int - '0' as int else c as int - 'A' as int + 10
  }

  lemma HexRoundTrip(d: nat)
    requires d < 16
    ensures HexValue(HexDigit(d)) == d
  {
  }

  /** What the encoder appends for one byte. */
  function EncodeByte(b: Byte): string {
    match Classify(b)
    case Unreserved => [b as char]
    case Space => "+"
    case Other => ['%', HexDigit(b / 16), HexDigit(b % 16)]
  }

  // ---------------------------------------------------------------------------
  // Whole inputs

  /** The encoder applied to a byte sequence: each byte's encoding, in input order. */
  function EncodeBytes(bs: seq<Byte>): string {
    if bs == [] then [] else EncodeByte(bs[0]) + EncodeBytes(bs[1..])
  }

  /** `encode(input)`: the encoding of the input's UTF-8 bytes. */
  function Encoded(s: string): string {
    EncodeBytes(Utf8(s))
  }

  /** `encode` as written: one pass over the bytes appending to `output`. */
  method Encode(input: string) returns (output: string)
    ensures output == Encoded(input)
  {
    var bytes := Utf8(input);
    output := "";
    for i := 0 to |bytes|
      invariant output == EncodeBytes(bytes[..i])
    {
      var b := bytes[i];
      ghost var before := output;
      EncodeByteCases(b);
      if IsUnreserved(b) {
        output := output + [b as char];
      } else if b == ' ' as int {
        output := output + "+";
      } else {
        output := output + ['%', HexDigit(b / 16), HexDigit(b % 16)];
      }
      assert output == before + EncodeByte(b);
      assert output == EncodeBytes(bytes[..i + 1]) by {
        EncodeOne(bytes[..i], b);
        assert bytes[..i + 1] == bytes[..i] + [b];
      }
    }
    assert bytes[..|bytes|] == bytes;
  }

  /** The three arms of the byte match, as the loop tests them. */
  lemma EncodeByteCases(b: Byte)
    ensures IsUnreserved(b) ==> EncodeByte(b) == [b as char]
    ensures !IsUnreserved(b) && b == ' ' as int ==> EncodeByte(b) == "+"
    ensures !IsUnreserved(b) && b != ' ' as int ==> EncodeByte(b) == ['%', HexDigit(b / 16), HexDigit(b % 16)]
  {
  }

  lemma EncodeOne(bs: seq<Byte>, b: Byte)
    ensures EncodeBytes(bs + [b]) == EncodeBytes(bs) + EncodeByte(b)
  {
    EncodeConcat(bs, [b]);
    assert EncodeBytes([b]) == EncodeByte(b) + EncodeBytes([]);
  }

  // ---------------------------------------------------------------------------
  // Properties

  /** The encoding of a concatenation is the concatenation of the encodings. */
  lemma {:induction false} EncodeConcat(a: seq<Byte>, b: seq<Byte>)
    ensures EncodeBytes(a + b) == EncodeBytes(a) + EncodeBytes(b)
  {
    if a != [] {
      assert (a + b)[0] == a[0];
      assert (a + b)[1..] == a[1..] + b;
      EncodeConcat(a[1..], b);
    } else {
      assert a + b == b;
    }
  }

  /** The same for strings: `encode` works character by character too. */
  lemma EncodedConcat(a: string, b: string)
    ensures Encoded(a + b) == Encoded(a) + Encoded(b)
  {
    Utf8Concat(a, b);
    EncodeConcat(Utf8(a), Utf8(b));
  }

  function Count(bs: seq<Byte>, k: ByteClass): nat {
    if bs == [] then 0 else (if Classify(bs[0]) == k then 1 else 0) + Count(bs[1..], k)
  }

  /** One output character per unreserved byte and per space, three per other byte. */
  lemma {:induction false} EncodeLength(bs: seq<Byte>)
    ensures |EncodeBytes(bs)| == Count(bs, Unreserved) + Count(bs, Space) + 3 * Count(bs, Other)
  {
    if bs != [] {
      EncodeLength(bs[1..]);
    }
  }

  /** The characters an encoded value can contain. */
  predicate IsEncodedChar(c: char) {
    IsUnreservedChar(c) || c == '+' || c == '%'
  }

  /** Every output character is unreserved, "+" or "%" (hex digits are unreserved). */
  lemma {:induction false} EncodeAlphabet(bs: seq<Byte>)
    ensures forall k :: 0 <= k < |EncodeBytes(bs)| ==> IsEncodedChar(EncodeBytes(bs)[k])
  {
    if bs != [] {
      EncodeAlphabet(bs[1..]);
      var head, tail := EncodeByte(bs[0]), EncodeBytes(bs[1..]);
      assert forall k :: 0 <= k < |head| ==> IsEncodedChar(head[k]);
      forall k | 0 <= k < |head + tail| ensures IsEncodedChar((head + tail)[k]) {
        if k >= |head| { assert (head + tail)[k] == tail[k - |head|]; }
      }
    }
  }

  // ---------------------------------------------------------------------------
  // The inverse

  /**
   * Reading an encoded value back: "+" is a space, "%" and two upper-case hex
   * digits are that byte, an unreserved character is itself, anything else is
   * not something the encoder writes.
   */
  function DecodeBytes(s: string): Option<seq<Byte>>
    decreases |s|
  {
    if s == [] then Some([])
    else if s[0] == '+' then Prepend(' ' as int, DecodeBytes(s[1..]))
    else if s[0] == '%' && |s| >= 3 && IsUpperHex(s[1]) && IsUpperHex(s[2]) then
      Prepend(16 * HexValue(s[1]) + HexValue(s[2]), DecodeBytes(s[3..]))
    else if IsUnreservedChar(s[0]) then Prepend(s[0] as int, DecodeBytes(s[1..]))
    else None
  }

  function Prepend(b: Byte, rest: Option<seq<Byte>>): Option<seq<Byte>> {
    match rest
    case None => None
    case Some(bs) => Some([b] + bs)
  }

  lemma DecodeByte(b: Byte, rest: string)
    ensures DecodeBytes(EncodeByte(b) + rest) == Prepend(b, DecodeBytes(rest))
  {
    var e := EncodeByte(b);
    var s := e + rest;
    match Classify(b)
    case Unreserved =>
      assert s[0] == b as char && s[1..] == rest;
    case Space =>
      assert s[0] == '+' && s[1..] == rest;
    case Other =>
      HexRoundTrip(b / 16);
      HexRoundTrip(b % 16);
      assert s[0] == '%' && s[1] == e[1] && s[2] == e[2] && s[3..] == rest;
  }

  /** Decoding undoes encoding. */
  lemma {:induction false} DecodeEncode(bs: seq<Byte>)
    ensures DecodeBytes(EncodeBytes(bs)) == Some(bs)
  {
    if bs != [] {
      DecodeEncode(bs[1..]);
      DecodeByte(bs[0], EncodeBytes(bs[1..]));
      assert bs == [bs[0]] + bs[1..];
    }
  }

  /** No two byte sequences have the same encoding; in particular a literal "+"
      (written "%2B") is never confused with a space. */
  lemma EncodeInjective(a: seq<Byte>, b: seq<Byte>)
    requires EncodeBytes(a) == EncodeBytes(b)
    ensures a == b
  {
    DecodeEncode(a);
    DecodeEncode(b);
  }

  /** No two strings have the same encoding. */
  lemma EncodedInjective(a: string, b: string)
    requires Encoded(a) == Encoded(b)
    ensures a == b
  {
    EncodeInjective(Utf8(a), Utf8(b));
    Utf8Injective(a, b);
  }

  // ---------------------------------------------------------------------------
  // Strings

  /** A string of unreserved ASCII characters is its own encoding. */
  lemma {:induction false} EncodeUnreservedIdentity(s: string)
    requires forall k :: 0 <= k < |s| ==> IsUnreservedChar(s[k])
    ensures Encoded(s) == s
  {
    if s != [] {
      EncodeUnreservedIdentity(s[1..]);
      EncodedConcat([s[0]], s[1..]);
      assert Utf8([s[0]]) == [s[0] as int] + Utf8([]);
      assert s == [s[0]] + s[1..];
    }
  }

  /** A character outside ASCII becomes one "%XX" triple per UTF-8 byte. */
  lemma NonAsciiPercentEncoded(c: char)
    requires c as int >= 0x80
    ensures var bs := CharUtf8(c);
      && Encoded([c]) == EncodeBytes(bs)
      && |Encoded([c])| == 3 * |bs|
      && forall k :: 0 <= k < |bs| ==> Classify(bs[k]) == Other
  {
    var bs := CharUtf8(c);
    assert [c][1..] == [];
    assert Utf8([c]) == bs + Utf8([]) == bs;
    assert forall k :: 0 <= k < |bs| ==> Classify(bs[k]) == Other;
    CountOthers(bs);
    EncodeLength(bs);
  }

  lemma {:induction false} CountOthers(bs: seq<Byte>)
    requires forall k :: 0 <= k < |bs| ==> Classify(bs[k]) == Other
    ensures Count(bs, Other) == |bs| && Count(bs, Unreserved) == 0 && Count(bs, Space) == 0
  {
    if bs != [] {
      CountOthers(bs[1..]);
    }
  }

  // Examples from the encoder's documentation. Each is proved from a general
  // lemma about one character between unreserved text.

  /** An ASCII character is encoded as its one byte. */
  lemma EncodeAscii(c: char)
    requires c as int < 0x80
    ensures Encoded([c]) == EncodeByte(c as int)
  {
    assert [c][1..] == [];
    assert Utf8([c]) == [c as int];
    assert [c as int][1..] == [];
    assert EncodeBytes([c as int]) == EncodeByte(c as int) + EncodeBytes([]);
  }

  /** A character between unreserved text: only that character is rewritten. */
  lemma AroundOne(h: string, c: char, w: string)
    requires forall k :: 0 <= k < |h| ==> IsUnreservedChar(h[k])
    requires forall k :: 0 <= k < |w| ==> IsUnreservedChar(w[k])
    ensures Encoded(h + [c] + w) == h + Encoded([c]) + w
  {
    EncodeUnreservedIdentity(h);
    EncodeUnreservedIdentity(w);
    EncodedConcat(h + [c], w);
    EncodedConcat(h, [c]);
  }

  lemma ExampleSpace()
    ensures Encoded("hello world") == "hello+world"
  {
    SpacePieces();
    assert "hello" + [' '] + "world" == "hello world";
    assert "hello" + "+" + "world" == "hello+world";
  }

  lemma SpacePieces()
    ensures Encoded("hello" + [' '] + "world") == "hello" + "+" + "world"
  {
    AroundOne("hello", ' ', "world");
    EncodeAscii(' ');
  }

  lemma ExampleAt()
    ensures Encoded("hello@world.com") == "hello%40world.com"
  {
    AtPieces();
    assert "hello" + ['@'] + "world.com" == "hello@world.com";
    assert "hello" + "%40" + "world.com" == "hello%40world.com";
  }

  lemma AtPieces()
    ensures Encoded("hello" + ['@'] + "world.com") == "hello" + "%40" + "world.com"
  {
    AroundOne("hello", '@', "world.com");
    EncodeAscii('@');
    assert EncodeByte('@' as int) == "%40";
  }

  lemma ExampleUnreserved()
    ensures Encoded("hello-world_123.txt~") == "hello-world_123.txt~"
  {
    EncodeUnreservedIdentity("hello-world_123.txt~");
  }

  /** A character from U+0080 to U+07FF is two bytes. */
  lemma TwoByteChar(c: char)
    requires 0x80 <= c as int < 0x800
    ensures Utf8([c]) == [0xC0 + c as int / 0x40, 0x80 + c as int % 0x40]
  {
    assert [c][1..] == [];
    assert Utf8([c]) == CharUtf8(c) + Utf8([]);
  }

  /** Two bytes that are neither unreserved nor a space: `%XX%XX`. */
  lemma TwoOthers(b0: Byte, b1: Byte)
    requires Classify(b0) == Other && Classify(b1) == Other
    ensures EncodeBytes([b0, b1])
         == ['%', HexDigit(b0 / 16), HexDigit(b0 % 16), '%', HexDigit(b1 / 16), HexDigit(b1 % 16)]
  {
    assert [b0, b1][1..] == [b1] && [b1][1..] == [];
    assert EncodeBytes([b1]) == EncodeByte(b1) + EncodeBytes([]);
  }

  /** "é" (U+00E9) is the bytes C3 A9. */
  lemma SmallEAcute()
    ensures Encoded("\U{E9}") == "%C3%A9"
  {
    TwoByteChar('\U{E9}');
    assert 0xE9 / 0x40 == 3 && 0xE9 % 0x40 == 0x29;
    TwoOthers(0xC3, 0xA9);
    assert HexDigit(12) == 'C' && HexDigit(3) == '3' && HexDigit(10) == 'A' && HexDigit(9) == '9';
  }

  lemma ExampleMultiByte()
    ensures Encoded("caf\U{E9}") == "caf%C3%A9"
  {
    CafePieces();
    assert "caf" + ['\U{E9}'] + "" == "caf\U{E9}";
    assert "caf" + "%C3%A9" + "" == "caf%C3%A9";
  }

  lemma CafePieces()
    ensures Encoded("caf" + ['\U{E9}'] + "") == "caf" + "%C3%A9" + ""
  {
    AroundOne("caf", '\U{E9}', "");
    SmallEAcute();
  }

  /**
   * The multi-byte example text as the encoder's documentation spells it: the
   * two characters U+00C3 U+00A9 (the bytes of "é" read back as Latin-1) in
   * place of "é". Each is two bytes in UTF-8, so the result is not the
   * documented `caf%C3%A9`.
   */
  lemma DocExampleAsWritten()
    ensures Encoded("caf\U{C3}\U{A9}") == "caf%C3%83%C2%A9"
    ensures Encoded("caf\U{C3}\U{A9}") != "caf%C3%A9"
  {
    MojibakePieces();
    assert "caf" + (['\U{C3}'] + ['\U{A9}']) == "caf\U{C3}\U{A9}";
    assert "caf" + ("%C3%83" + "%C2%A9") == "caf%C3%83%C2%A9";
  }

  lemma MojibakePieces()
    ensures Encoded("caf" + (['\U{C3}'] + ['\U{A9}'])) == "caf" + ("%C3%83" + "%C2%A9")
  {
    LatinCapitalAWithTilde();
    CopyrightSign();
    UnreservedThenTwo("caf", '\U{C3}', '\U{A9}', "%C3%83", "%C2%A9");
  }

  /** Unreserved text followed by two characters of known encodings. */
  lemma UnreservedThenTwo(h: string, c: char, d: char, ec: string, ed: string)
    requires forall k :: 0 <= k < |h| ==> IsUnreservedChar(h[k])
    requires Encoded([c]) == ec && Encoded([d]) == ed
    ensures Encoded(h + ([c] + [d])) == h + (ec + ed)
  {
    EncodeUnreservedIdentity(h);
    EncodedConcat([c], [d]);
    EncodedConcat(h, [c] + [d]);
  }

  lemma LatinCapitalAWithTilde()
    ensures Encoded(['\U{C3}']) == "%C3%83"
  {
    TwoByteChar('\U{C3}');
    assert 0xC3 / 0x40 == 3 && 0xC3 % 0x40 == 3;
    TwoOthers(0xC3, 0x83);
    assert HexDigit(12) == 'C' && HexDigit(3) == '3' && HexDigit(8) == '8';
  }

  lemma CopyrightSign()
    ensures Encoded(['\U{A9}']) == "%C2%A9"
  {
    TwoByteChar('\U{A9}');
    assert 0xA9 / 0x40 == 2 && 0xA9 % 0x40 == 0x29;
    TwoOthers(0xC2, 0xA9);
    assert HexDigit(12) == 'C' && HexDigit(2) == '2' && HexDigit(10) == 'A' && HexDigit(9) == '9';
  }

  lemma ExampleReserved()
    ensures Encoded("a/b?c") == "a%2Fb%3Fc"
  {
    ReservedPieces();
    assert ("a" + ['/'] + "") + ("b" + ['?'] + "c") == "a/b?c";
    assert ("a" + "%2F" + "") + ("b" + "%3F" + "c") == "a%2Fb%3Fc";
  }

  lemma ReservedPieces()
    ensures Encoded(("a" + ['/'] + "") + ("b" + ['?'] + "c")) == ("a" + "%2F" + "") + ("b" + "%3F" + "c")
  {
    AroundOne("a", '/', "");
    AroundOne("b", '?', "c");
    EncodeAscii('/');
    EncodeAscii('?');
    assert EncodeByte('/' as int) == "%2F" && EncodeByte('?' as int) == "%3F";
    EncodedConcat("a" + ['/'] + "", "b" + ['?'] + "c");
  }
}
