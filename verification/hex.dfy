/** The encoding step of scripts/formatProof.js: a byte buffer becomes "0x"
    followed by two lowercase hex digits per byte, as Node's
    `Buffer.toString("hex")` writes them. */
module HexFormat {
  import opened Outcomes

  newtype byte = x: int | 0 <= x < 256

  /** The digits `Buffer.toString("hex")` writes, indexed by nibble. */
  const HexAlphabet: string := "0123456789abcdef"

  predicate IsHexDigit(c: char) {
    '0' <= c <= '9' || 'a' <= c <= 'f'
  }

  /** The lowercase hex digit of a nibble. */
  function HexDigit(n: int): (c: char)
    requires 0 <= n < 16
    ensures IsHexDigit(c)
  {
    if n < 10 then ('0' as int + n) as char else ('a' as int + n - 10) as char
  }

  /** Nibble `n` is written as the `n`-th character of the hex alphabet. */
  lemma HexDigitInAlphabet(n: int)
    requires 0 <= n < 16
    ensures HexDigit(n) == HexAlphabet[n]
  {
  }

  /** The nibble a lowercase hex digit stands for. */
  function NibbleOf(c: char): (n: int)
    requires IsHexDigit(c)
    ensures 0 <= n < 16
    ensures HexDigit(n) == c
  {
    if c <= '9' then c as int - '0' as int else c as int - 'a' as int + 10
  }

  /** Two digits per byte, high nibble first, bytes in input order. */
  function HexBody(bs: seq<byte>): (h: string)
    ensures |h| == 2 * |bs|
    ensures forall k :: 0 <= k < |h| ==> IsHexDigit(h[k])
  {
    if bs == [] then []
    else [HexDigit(bs[0] as int / 16), HexDigit(bs[0] as int % 16)] + HexBody(bs[1..])
  }

  /** Byte `i` is written at positions `2i` and `2i + 1` of the body. */
  lemma {:induction false} HexBodyAt(bs: seq<byte>, i: nat)
    requires i < |bs|
    ensures HexBody(bs)[2 * i] == HexDigit(bs[i] as int / 16)
    ensures HexBody(bs)[2 * i + 1] == HexDigit(bs[i] as int % 16)
    decreases i
  {
    if i > 0 {
      HexBodyAt(bs[1..], i - 1);
      var h, rest := HexBody(bs), HexBody(bs[1..]);
      assert h[2 * i] == rest[2 * (i - 1)];
      assert h[2 * i + 1] == rest[2 * (i - 1) + 1];
    }
  }

  /** `"0x" + Buffer.from(...).toString("hex")`, from the bytes on. */
  function FormatProof(bs: seq<byte>): string
  {
    "0x" + HexBody(bs)
  }

  /** The output is "0x", then exactly two lowercase hex digits per byte. */
  lemma FormatProofShape(bs: seq<byte>)
    ensures |FormatProof(bs)| == 2 + 2 * |bs|
    ensures FormatProof(bs)[..2] == "0x"
    ensures forall k :: 2 <= k < |FormatProof(bs)| ==> IsHexDigit(FormatProof(bs)[k])
  {
    var h, body := FormatProof(bs), HexBody(bs);
    assert forall k :: 2 <= k < |h| ==> h[k] == body[k - 2];
  }

  /** Byte `i` becomes the characters at positions `2 + 2i` and `3 + 2i`,
      high nibble first. */
  lemma FormatProofAt(bs: seq<byte>, i: nat)
    requires i < |bs|
    ensures FormatProof(bs)[2 + 2 * i] == HexDigit(bs[i] as int / 16)
    ensures FormatProof(bs)[3 + 2 * i] == HexDigit(bs[i] as int % 16)
  {
    HexBodyAt(bs, i);
    FormatProofShape(bs);
    assert FormatProof(bs)[2..] == HexBody(bs);
  }

  /** Reads two hex digits per byte; anything else is rejected. */
  function DecodeBody(h: string): (r: Option<seq<byte>>)
    ensures r.Some? ==> |h| == 2 * |r.value|
    decreases |h|
  {
    if h == [] then Some([])
    else if |h| == 1 || !IsHexDigit(h[0]) || !IsHexDigit(h[1]) then None
    else match DecodeBody(h[2..])
      case None => None
      case Some(rest) => Some([(16 * NibbleOf(h[0]) + NibbleOf(h[1])) as byte] + rest)
  }

  /** The inverse of `FormatProof`: "0x" and an even number of lowercase hex
      digits. */
  function DecodeHex(h: string): (r: Option<seq<byte>>)
    ensures r.Some? ==> |h| == 2 + 2 * |r.value|
  {
    if |h| < 2 || h[..2] != "0x" then None else DecodeBody(h[2..])
  }

  lemma {:induction false} DecodeHexBody(bs: seq<byte>)
    ensures DecodeBody(HexBody(bs)) == Some(bs)
  {
    if bs != [] {
      var h := HexBody(bs);
      assert h[2..] == HexBody(bs[1..]);
      DecodeHexBody(bs[1..]);
      var b := bs[0] as int;
      assert NibbleOf(h[0]) == b / 16 && NibbleOf(h[1]) == b % 16;
      assert [bs[0]] + bs[1..] == bs;
    }
  }

  lemma {:induction false} HexBodyOfDecode(h: string, bs: seq<byte>)
    requires DecodeBody(h) == Some(bs)
    ensures HexBody(bs) == h
    decreases |h|
  {
    if h != [] {
      var rest :| DecodeBody(h[2..]) == Some(rest);
      HexBodyOfDecode(h[2..], rest);
      assert bs == [bs[0]] + rest;
      var hi, lo := NibbleOf(h[0]), NibbleOf(h[1]);
      assert bs[0] as int / 16 == hi && bs[0] as int % 16 == lo;
      assert bs[1..] == rest;
      assert h == [h[0], h[1]] + h[2..];
    }
  }

  /** Decoding the output recovers the bytes, and a string decodes to some
      bytes exactly when it is their encoding. */
  lemma RoundTrip(bs: seq<byte>, h: string)
    ensures DecodeHex(FormatProof(bs)) == Some(bs)
    ensures DecodeHex(h) == Some(bs) <==> h == FormatProof(bs)
  {
    var e := FormatProof(bs);
    assert e[2..] == HexBody(bs);
    DecodeHexBody(bs);
    if DecodeHex(h) == Some(bs) {
      HexBodyOfDecode(h[2..], bs);
      assert h == h[..2] + h[2..];
    }
  }

  /** Different buffers never print the same hex string. */
  lemma FormatProofInjective(a: seq<byte>, b: seq<byte>)
    ensures FormatProof(a) == FormatProof(b) ==> a == b
  {
    RoundTrip(a, FormatProof(a));
    RoundTrip(b, FormatProof(b));
  }

  /** An empty buffer prints as the bare prefix. */
  lemma EmptyBuffer()
    ensures FormatProof([]) == "0x"
  {
  }

  /** The seven bytes of the serialisation `{"a":1}` (one byte per ASCII
      character) print as 0x7b2261223a317d. */
  lemma SmallObject()
    ensures FormatProof([0x7b, 0x22, 0x61, 0x22, 0x3a, 0x31, 0x7d]) == "0x7b2261223a317d"
  {
  }
}
