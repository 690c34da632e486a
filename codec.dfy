/** The string codecs of lib/python/pycstbox/dwh/lib.py: `Crypter`, which pads the text with
    its key to a block length, XORs it with the repeated key and hex-encodes the result, and
    `Noop`, which passes text through. The random pad bytes are a parameter. */
module Codec {
  import opened Wrappers
  import opened Text

  type byte = bv8

  /** The model restricts text to ASCII, where Python's utf-8 encoding is one byte per character. */
  predicate Ascii(s: string)
  {
    forall i :: 0 <= i < |s| ==> s[i] as int < 128
  }

  function ToBytes(s: string): (b: seq<byte>)
    requires Ascii(s)
    ensures |b| == |s|
  {
    seq(|s|, i requires 0 <= i < |s| => s[i] as int as byte)
  }

  /** `chr` of each byte */
  function ToChars(b: seq<byte>): (s: string)
    ensures |s| == |b|
  {
    seq(|b|, i requires 0 <= i < |b| => b[i] as int as char)
  }

  lemma CharsOfBytes(s: string)
    requires Ascii(s)
    ensures ToChars(ToBytes(s)) == s
  {
    var b := ToBytes(s);
    var t := ToChars(b);
    forall i | 0 <= i < |s| ensures t[i] == s[i] {
      assert b[i] == s[i] as int as byte;
      CharOfByte(s[i]);
    }
  }

  lemma CharOfByte(c: char)
    requires c as int < 128
    ensures (c as int as byte) as int as char == c
  {
  }

  /** The characters of a compound followed by pad bytes. */
  lemma CharsOfCompound(s: string, key: string, pad: seq<byte>)
    requires Ascii(s) && Ascii(key)
    ensures ToChars(Compound(s, key) + pad) == s + "\0" + key + "\0" + ToChars(pad)
  {
    CharsOfBytes(s);
    CharsOfBytes(key);
    var sb, kb := ToBytes(s), ToBytes(key);
    assert Compound(s, key) + pad == sb + [0] + kb + [0] + pad;
    assert ToChars(sb + [0] + kb + [0] + pad)
        == ToChars(sb) + ToChars([0]) + ToChars(kb) + ToChars([0]) + ToChars(pad);
  }

  /** `((n - 1) / 16 + 1) * 16` */
  function TargetLength(n: nat): nat
    requires n >= 1
  {
    ((n - 1) / 16 + 1) * 16
  }

  /** The target length is the smallest multiple of 16 that is at least `n`. */
  lemma TargetLengthIsNextBlock(n: nat)
    requires n >= 1
    ensures TargetLength(n) % 16 == 0
    ensures n <= TargetLength(n) < n + 16
  {
  }

  /** `key * times` */
  function Repeat(key: seq<byte>, times: nat): (r: seq<byte>)
    ensures |r| == |key| * times
  {
    if times == 0 then [] else key + Repeat(key, times - 1)
  }

  /** Two repetitions of the same key agree wherever both are defined. */
  lemma {:induction false} RepeatAgree(key: seq<byte>, t1: nat, t2: nat, i: nat)
    requires i < |Repeat(key, t1)| && i < |Repeat(key, t2)|
    ensures Repeat(key, t1)[i] == Repeat(key, t2)[i]
  {
    if i >= |key| {
      RepeatAgree(key, t1 - 1, t2 - 1, i - |key|);
    }
  }

  /** `(key * (lg / len(key) + 1))[:lg]` */
  function ExpandKey(key: seq<byte>, lg: nat): (r: seq<byte>)
    requires |key| > 0
    ensures |r| == lg
  {
    var times := lg / |key| + 1;
    assert |key| * times > lg;
    Repeat(key, times)[..lg]
  }

  /** Keys expanded to two lengths agree on their common prefix. */
  lemma ExpandKeyAgree(key: seq<byte>, lg1: nat, lg2: nat, i: nat)
    requires |key| > 0 && i < lg1 && i < lg2
    ensures ExpandKey(key, lg1)[i] == ExpandKey(key, lg2)[i]
  {
    var t1, t2 := lg1 / |key| + 1, lg2 / |key| + 1;
    assert |key| * t1 > lg1 && |key| * t2 > lg2;
    RepeatAgree(key, t1, t2, i);
  }

  /** `bytearray(b ^ k for b, k in zip(data, key))` */
  function Xor(data: seq<byte>, key: seq<byte>): (r: seq<byte>)
    ensures |r| == if |data| <= |key| then |data| else |key|
  {
    var n := if |data| <= |key| then |data| else |key|;
    seq(n, i requires 0 <= i < n => data[i] ^ key[i])
  }

  function HexDigit(d: byte): char
    requires d < 16
  {
    if d < 10 then ('0' as int + d as int) as char else ('a' as int + d as int - 10) as char
  }

  function HexValue(c: char): Option<byte>
  {
    if '0' <= c <= '9' then Some((c as int - '0' as int) as byte)
    else if 'a' <= c <= 'f' then Some((c as int - 'a' as int + 10) as byte)
    else if 'A' <= c <= 'F' then Some((c as int - 'A' as int + 10) as byte)
    else None
  }

  /** `binascii.hexlify`: two lower-case hex digits per byte. */
  function Hexlify(b: seq<byte>): (h: string)
    ensures |h| == 2 * |b|
  {
    if b == [] then [] else [HexDigit(b[0] >> 4), HexDigit(b[0] & 15)] + Hexlify(b[1..])
  }

  /** The byte two hex digits stand for. */
  function HexByte(c1: char, c2: char): Option<byte>
  {
    match HexValue(c1)
    case None => None
    case Some(hi) =>
      match HexValue(c2)
      case None => None
      case Some(lo) => Some((hi << 4) | lo)
  }

  /** `binascii.unhexlify`: `None` stands for the `TypeError` it raises on an odd length or a
      character that is not a hex digit. */
  function Unhexlify(h: string): Option<seq<byte>>
  {
    if h == [] then Some([])
    else if |h| == 1 then None
    else
      match HexByte(h[0], h[1])
      case None => None
      case Some(b) =>
        match Unhexlify(h[2..])
        case None => None
        case Some(rest) => Some([b] + rest)
  }

  lemma HexDigitValue(d: byte)
    requires d < 16
    ensures HexValue(HexDigit(d)) == Some(d)
  {
  }

  lemma HexByteOfDigits(b: byte)
    ensures HexByte(HexDigit(b >> 4), HexDigit(b & 15)) == Some(b)
  {
    HexDigitValue(b >> 4);
    HexDigitValue(b & 15);
    assert ((b >> 4) << 4) | (b & 15) == b;
  }

  lemma {:induction false} UnhexlifyHexlify(b: seq<byte>)
    ensures Unhexlify(Hexlify(b)) == Some(b)
  {
    if b != [] {
      var h := Hexlify(b);
      HexByteOfDigits(b[0]);
      assert h[0] == HexDigit(b[0] >> 4) && h[1] == HexDigit(b[0] & 15);
      assert h[2..] == Hexlify(b[1..]);
      UnhexlifyHexlify(b[1..]);
      assert b == [b[0]] + b[1..];
    }
  }

  /** The bytes of `s + '\0' + key + '\0'`. */
  function Compound(s: string, key: string): (c: seq<byte>)
    requires Ascii(s) && Ascii(key)
    ensures |c| == |s| + |key| + 2
  {
    ToBytes(s) + [0] + ToBytes(key) + [0]
  }

  /** How many random bytes `xrange(1, lg - n)` draws for a compound of `n` bytes. */
  function PadCount(n: nat): nat
    requires n >= 1
  {
    if TargetLength(n) - n - 1 > 0 then TargetLength(n) - n - 1 else 0
  }

  /** The draws of `random.randint(1, 255)` for a compound of `n` bytes. */
  predicate ValidPad(pad: seq<byte>, n: nat)
    requires n >= 1
  {
    |pad| == PadCount(n) && forall i :: 0 <= i < |pad| ==> pad[i] != 0
  }

  /** `(s + rpad)[:lg]` */
  function Padded(s: string, key: string, pad: seq<byte>): seq<byte>
    requires Ascii(s) && Ascii(key)
  {
    var c := Compound(s, key);
    var lg := TargetLength(|c|);
    var full := c + pad;
    if |full| <= lg then full else full[..lg]
  }

  /** The hexlified XOR of the padded compound with the key repeated to the target length,
      for whatever pad bytes are supplied. */
  function Cipher(s: string, key: string, pad: seq<byte>): string
    requires Ascii(s) && Ascii(key) && key != ""
  {
    var lg := TargetLength(|Compound(s, key)|);
    Hexlify(Xor(Padded(s, key, pad), ExpandKey(ToBytes(key), lg)))
  }

  /** The codec a process is configured with. */
  datatype CodecKind = Crypter(key: string) | Noop

  /** `encode(s)`; `Crypter` divides by the key length, so an empty key raises
      `ZeroDivisionError`. */
  function Encode(codec: CodecKind, s: string, pad: seq<byte>): Result<string>
    requires codec.Crypter? ==> Ascii(s) && Ascii(codec.key) && ValidPad(pad, |s| + |codec.key| + 2)
  {
    match codec
    case Noop => Ok(s)
    case Crypter(key) => if key == "" then Err(ZeroDivisionError) else Ok(Cipher(s, key, pad))
  }

  /** `s.split('\0', 2)` */
  function SplitNul(t: string): (parts: seq<string>)
    ensures 1 <= |parts| <= 3
  {
    var i := IndexOf(t, '\0');
    if i == |t| then [t]
    else
      var rest := t[i + 1..];
      var j := IndexOf(rest, '\0');
      if j == |rest| then [t[..i], rest] else [t[..i], rest[..j], rest[j + 1..]]
  }

  /** `split('\0', 2)` cuts at the first two NULs only: joining the parts back gives the
      text, every part but the last is free of NUL, and so is the last one when fewer than
      three parts come out. */
  lemma SplitNulSpec(t: string)
    ensures var parts := SplitNul(t);
            Join(parts, '\0') == t &&
            (forall k :: 0 <= k < |parts| - 1 ==> '\0' !in parts[k]) &&
            (|parts| < 3 ==> '\0' !in parts[|parts| - 1])
  {
    var i := IndexOf(t, '\0');
    if i < |t| {
      var rest := t[i + 1..];
      var j := IndexOf(rest, '\0');
      assert t == t[..i] + ['\0'] + rest;
      if j < |rest| {
        assert rest == rest[..j] + ['\0'] + rest[j + 1..];
        assert Join([rest[..j], rest[j + 1..]], '\0') == rest;
      }
    }
  }

  /** A text `decode` returns holds no NUL, and the key field it was checked against is the
      key itself: whatever the input, a `Some` result is the first field of a NUL-separated
      triple whose second field is the key. */
  lemma DecodedFields(key: string, h: string)
    requires Ascii(key)
    ensures var d := Decode(Crypter(key), h);
            d.Ok? && d.value.Some? ==>
              key != "" && '\0' !in d.value.value &&
              exists buf, rest :: Unhexlify(h) == Some(buf) &&
                ToChars(Xor(buf, ExpandKey(ToBytes(key), |buf|))) == Join([d.value.value, key, rest], '\0')
  {
    var d := Decode(Crypter(key), h);
    if d.Ok? && d.value.Some? {
      var buf := Unhexlify(h).value;
      var t := ToChars(Xor(buf, ExpandKey(ToBytes(key), |buf|)));
      SplitNulSpec(t);
      var parts := SplitNul(t);
      assert parts == [d.value.value, key, parts[2]];
    }
  }

  /** `decode(s)`: `Ok(None)` is the `None` returned when the text does not unpack into three
      NUL-separated fields or when its second field is not the key; `Err` is an exception that
      escapes (`TypeError` from `unhexlify`, `ZeroDivisionError` for an empty key). */
  function Decode(codec: CodecKind, h: string): Result<Option<string>>
    requires codec.Crypter? ==> Ascii(codec.key)
  {
    match codec
    case Noop => Ok(Some(h))
    case Crypter(key) =>
      match Unhexlify(h)
      case None => Err(TypeError)
      case Some(buf) =>
        if key == "" then Err(ZeroDivisionError)
        else
          var parts := SplitNul(ToChars(Xor(buf, ExpandKey(ToBytes(key), |buf|))));
          if |parts| < 3 || parts[1] != key then Ok(None) else Ok(Some(parts[0]))
  }

  /** XORing twice with the same repeated key gives the data back. */
  lemma XorTwice(data: seq<byte>, key: seq<byte>, lg: nat)
    requires |key| > 0 && |data| <= lg
    ensures Xor(Xor(data, ExpandKey(key, lg)), ExpandKey(key, |data|)) == data
  {
    var once := Xor(data, ExpandKey(key, lg));
    var twice := Xor(once, ExpandKey(key, |data|));
    forall i | 0 <= i < |data| ensures twice[i] == data[i] {
      ExpandKeyAgree(key, lg, |data|, i);
    }
  }

  /** The decoded text of a padded compound splits back into the text, the key and the pad. */
  lemma SplitCompound(s: string, key: string, rest: string)
    requires '\0' !in s && '\0' !in key
    ensures SplitNul(s + "\0" + key + "\0" + rest) == [s, key, rest]
  {
    var t := s + "\0" + key + "\0" + rest;
    assert t[|s|] == '\0';
    assert IndexOf(t, '\0') == |s| by {
      assert forall j :: 0 <= j < |s| ==> t[j] == s[j];
    }
    var r := t[|s| + 1..];
    assert r == key + "\0" + rest;
    assert r[|key|] == '\0';
    assert IndexOf(r, '\0') == |key| by {
      assert forall j :: 0 <= j < |key| ==> r[j] == key[j];
    }
    assert t[..|s|] == s;
    assert r[..|key|] == key && r[|key| + 1..] == rest;
  }

  /** Whatever pad bytes fill the block, the cipher text decodes to the original text. */
  lemma CipherRoundTrip(s: string, key: string, pad: seq<byte>)
    requires Ascii(s) && Ascii(key) && key != ""
    requires '\0' !in s && '\0' !in key
    requires |pad| <= TargetLength(|s| + |key| + 2) - (|s| + |key| + 2)
    ensures Decode(Crypter(key), Cipher(s, key, pad)) == Ok(Some(s))
  {
    var c := Compound(s, key);
    var lg := TargetLength(|c|);
    var padded := Padded(s, key, pad);
    assert padded == c + pad;
    var buf := Xor(padded, ExpandKey(ToBytes(key), lg));
    UnhexlifyHexlify(buf);
    XorTwice(padded, ToBytes(key), lg);
    assert |buf| == |padded|;
    CharsOfCompound(s, key, pad);
    SplitCompound(s, key, ToChars(pad));
  }

  /** `decode(encode(s)) == s` for both codecs, for every draw of the pad bytes, given a
      non-empty key and text and key without NUL. */
  lemma EncodeDecodeRoundTrip(codec: CodecKind, s: string, pad: seq<byte>)
    requires codec.Crypter? ==> Ascii(s) && Ascii(codec.key) && ValidPad(pad, |s| + |codec.key| + 2)
    requires codec.Crypter? ==> codec.key != "" && '\0' !in s && '\0' !in codec.key
    ensures Encode(codec, s, pad).Ok?
    ensures Decode(codec, Encode(codec, s, pad).value) == Ok(Some(s))
  {
    if codec.Crypter? {
      CipherRoundTrip(s, codec.key, pad);
    }
  }

  /** As written, `xrange(1, lg - n)` draws one byte fewer than the block needs: whenever the
      compound does not already fill whole blocks the padded data, and so the cipher, is one
      byte short of the 16-byte boundary. */
  lemma PaddedLengthAsWritten(s: string, key: string, pad: seq<byte>)
    requires Ascii(s) && Ascii(key) && key != "" && ValidPad(pad, |s| + |key| + 2)
    ensures var n := |s| + |key| + 2;
            |Cipher(s, key, pad)| == 2 * (if n % 16 == 0 then n else TargetLength(n) - 1)
  {
    var n := |s| + |key| + 2;
    var lg := TargetLength(n);
    assert |Padded(s, key, pad)| == (if n % 16 == 0 then n else lg - 1) by {
      TargetLengthIsNextBlock(n);
      if n % 16 == 0 {
        SameBlock(n, lg);
      }
    }
    assert |Padded(s, key, pad)| <= lg;
  }

  /** Two multiples of 16 less than 16 apart are equal. */
  lemma SameBlock(n: nat, lg: nat)
    requires n % 16 == 0 && lg % 16 == 0 && n <= lg < n + 16
    ensures lg == n
  {
    assert n == 16 * (n / 16) && lg == 16 * (lg / 16);
  }

  /** An empty text under the key "a" makes a 3-byte compound; the block is 16 bytes but only
      12 pad bytes are drawn, so the cipher text has 30 hex digits instead of 32. */
  lemma EmptyTextCipherIsShort(pad: seq<byte>)
    requires ValidPad(pad, 3)
    ensures Encode(Crypter("a"), "", pad) == Ok(Cipher("", "a", pad))
    ensures |Cipher("", "a", pad)| == 30
    ensures |Cipher("", "a", pad)| % 32 != 0
  {
    PaddedLengthAsWritten("", "a", pad);
  }

  /** The pad length the comment describes: enough bytes to reach the target length. */
  function FullPadCount(n: nat): nat
    requires n >= 1
  {
    TargetLength(n) - n
  }

  predicate ValidFullPad(pad: seq<byte>, n: nat)
    requires n >= 1
  {
    |pad| == FullPadCount(n) && forall i :: 0 <= i < |pad| ==> pad[i] != 0
  }

  /** `encode` with the pad drawn from `xrange(lg - n)`, filling the last block. */
  function EncodeFullBlocks(codec: CodecKind, s: string, pad: seq<byte>): Result<string>
    requires codec.Crypter? ==> Ascii(s) && Ascii(codec.key) && ValidFullPad(pad, |s| + |codec.key| + 2)
  {
    match codec
    case Noop => Ok(s)
    case Crypter(key) => if key == "" then Err(ZeroDivisionError) else Ok(Cipher(s, key, pad))
  }

  lemma DoubleBlock(lg: nat)
    requires lg % 16 == 0
    ensures (2 * lg) % 32 == 0
  {
    assert lg == 16 * (lg / 16);
  }

  /** With the corrected pad the cipher text always covers whole 16-byte blocks, and it still
      decodes to the original text. */
  lemma FullBlocksLengthAndRoundTrip(s: string, key: string, pad: seq<byte>)
    requires Ascii(s) && Ascii(key) && key != "" && ValidFullPad(pad, |s| + |key| + 2)
    requires '\0' !in s && '\0' !in key
    ensures EncodeFullBlocks(Crypter(key), s, pad).Ok?
    ensures var h := EncodeFullBlocks(Crypter(key), s, pad).value;
            |h| == 2 * TargetLength(|s| + |key| + 2) && |h| % 32 == 0 &&
            Decode(Crypter(key), h) == Ok(Some(s))
  {
    var h := Cipher(s, key, pad);
    assert EncodeFullBlocks(Crypter(key), s, pad) == Ok(h);
    FullCipherLength(s, key, pad);
    CipherRoundTrip(s, key, pad);
  }

  lemma FullCipherLength(s: string, key: string, pad: seq<byte>)
    requires Ascii(s) && Ascii(key) && key != "" && ValidFullPad(pad, |s| + |key| + 2)
    ensures |Cipher(s, key, pad)| == 2 * TargetLength(|s| + |key| + 2)
    ensures |Cipher(s, key, pad)| % 32 == 0
  {
    var n := |s| + |key| + 2;
    var lg := TargetLength(n);
    TargetLengthIsNextBlock(n);
    assert |Padded(s, key, pad)| == lg;
    DoubleBlock(lg);
  }
}
