/** UTF-8, by the bit layout of section 3 of RFC 3629. */
module Utf8 {
  import opened Basics

  /** The bytes of one character: a lead byte that tells how many there are, and six bits in each of the
      others. */
  function Bytes(c: char): (bytes: seq<nat>)
    ensures 1 <= |bytes| <= 4 && forall b :: b in bytes ==> b < 256
  {
    var code := c as int;
    if code < 0x80 then [code]
    else if code < 0x800 then [0xC0 + code / 64, 0x80 + code % 64]
    else if code < 0x1_0000 then [0xE0 + code / 4096, 0x80 + code / 64 % 64, 0x80 + code % 64]
    else [0xF0 + code / 262144, 0x80 + code / 4096 % 64, 0x80 + code / 64 % 64, 0x80 + code % 64]
  }

  function Encode(text: string): seq<nat> {
    if text == [] then [] else Bytes(text[0]) + Encode(text[1..])
  }

  datatype Read = Read(c: char, size: nat)

  predicate Continues(b: nat) { 0x80 <= b < 0xC0 }

  /** How many bytes a lead byte announces; 0 for a byte that leads none. */
  function Announced(b: nat): nat {
    if b < 0x80 then 1 else if b < 0xC0 then 0 else if b < 0xE0 then 2 else if b < 0xF0 then 3
    else if b < 0xF8 then 4 else 0
  }

  /** The number a sequence of the announced length spells: what the lead byte leaves, then six bits of
      each other byte. */
  function Spelled(bytes: seq<nat>): nat
    requires bytes != [] && Announced(bytes[0]) == |bytes|
  {
    match |bytes|
    case 1 => bytes[0]
    case 2 => bytes[0] % 32 * 64 + bytes[1] % 64
    case 3 => bytes[0] % 16 * 4096 + bytes[1] % 64 * 64 + bytes[2] % 64
    case _ => bytes[0] % 8 * 262144 + bytes[1] % 64 * 4096 + bytes[2] % 64 * 64 + bytes[3] % 64
  }

  /** The smallest number that takes n bytes. */
  function Least(n: nat): int { if n == 1 then 0 else if n == 2 then 0x80 else if n == 3 then 0x800 else 0x1_0000 }

  predicate Scalar(code: int) { 0 <= code < 0xD800 || 0xE000 <= code < 0x11_0000 }

  /** The first character of some bytes: None where they are cut short or spell none. */
  function First(bytes: seq<nat>): (read: Option<Read>)
    ensures read.Some? ==> 0 < read.value.size <= |bytes|
  {
    if bytes == [] || Announced(bytes[0]) == 0 || Announced(bytes[0]) > |bytes| then None
    else
      var taken := bytes[..Announced(bytes[0])];
      if (forall i :: 1 <= i < |taken| ==> Continues(taken[i])) && Scalar(Spelled(taken))
         && Spelled(taken) >= Least(|taken|)
      then Some(Read(Spelled(taken) as char, |taken|)) else None
  }

  /** `bytes.decode("utf-8")`; None stands for its exception. */
  function Decode(bytes: seq<nat>): Option<string>
    decreases |bytes|
  {
    if bytes == [] then Some([])
    else match First(bytes)
      case None => None
      case Some(read) =>
        match Decode(bytes[read.size..])
        case None => None
        case Some(rest) => Some([read.c] + rest)
  }

  /** A code in base 64. */
  lemma Digits(code: nat)
    ensures code == code / 64 * 64 + code % 64
    ensures code == code / 4096 * 4096 + code / 64 % 64 * 64 + code % 64
    ensures code == code / 262144 * 262144 + code / 4096 % 64 * 4096 + code / 64 % 64 * 64 + code % 64
  {
    assert code / 64 / 64 == code / 4096 && code / 4096 / 64 == code / 262144;
  }

  lemma Low(bits: nat)
    requires bits < 64
    ensures (0x80 + bits) % 64 == bits
  {}

  lemma LeadBits(code: nat)
    ensures code < 0x800 ==> (0xC0 + code / 64) % 32 == code / 64
    ensures code < 0x1_0000 ==> (0xE0 + code / 4096) % 16 == code / 4096
    ensures code < 0x20_0000 ==> (0xF0 + code / 262144) % 8 == code / 262144
  {}

  lemma SpelledBack(c: char)
    ensures Announced(Bytes(c)[0]) == |Bytes(c)| && Spelled(Bytes(c)) == c as int
    ensures forall i :: 1 <= i < |Bytes(c)| ==> Continues(Bytes(c)[i])
    ensures Least(|Bytes(c)|) <= c as int
  {
    var code := c as int;
    Digits(code);
    LeadBits(code);
    Low(code % 64);
    Low(code / 64 % 64);
    Low(code / 4096 % 64);
    LeadAnnounces(c);
  }

  lemma LeadAnnounces(c: char)
    ensures Announced(Bytes(c)[0]) == |Bytes(c)|
  {}

  /** The bytes of a character read back as that character, whatever follows. */
  lemma FirstReads(c: char, rest: seq<nat>)
    ensures First(Bytes(c) + rest) == Some(Read(c, |Bytes(c)|))
  {
    SpelledBack(c);
    var bytes := Bytes(c) + rest;
    assert bytes[..|Bytes(c)|] == Bytes(c);
    assert bytes[0] == Bytes(c)[0];
  }

  /** Cut short they read as nothing. */
  lemma FirstCut(c: char, k: nat)
    requires 0 < k < |Bytes(c)|
    ensures First(Bytes(c)[..k]) == None
  {
    SpelledBack(c);
  }

  lemma {:induction false} DecodeEncode(text: string)
    ensures Decode(Encode(text)) == Some(text)
  {
    if text != [] {
      FirstReads(text[0], Encode(text[1..]));
      DecodeEncode(text[1..]);
      assert Encode(text)[|Bytes(text[0])|..] == Encode(text[1..]);
      assert [text[0]] + text[1..] == text;
    }
  }

  /** What a lead byte and its followers spell goes back into those bytes. */
  lemma SpelledTwo(a: nat, b: nat)
    requires 0xC0 <= a < 0xE0 && Continues(b)
    ensures var code := a % 32 * 64 + b % 64; 0xC0 + code / 64 == a && 0x80 + code % 64 == b && code < 0x800
  {}

  lemma SpelledThree(a: nat, b: nat, c: nat)
    requires 0xE0 <= a < 0xF0 && Continues(b) && Continues(c)
    ensures var code := a % 16 * 4096 + b % 64 * 64 + c % 64;
            0xE0 + code / 4096 == a && 0x80 + code / 64 % 64 == b && 0x80 + code % 64 == c && code < 0x1_0000
  {
    var code := a % 16 * 4096 + b % 64 * 64 + c % 64;
    assert code / 64 == a % 16 * 64 + b % 64;
  }

  lemma SpelledFour(a: nat, b: nat, c: nat, d: nat)
    requires 0xF0 <= a < 0xF8 && Continues(b) && Continues(c) && Continues(d)
    ensures var code := a % 8 * 262144 + b % 64 * 4096 + c % 64 * 64 + d % 64;
            0xF0 + code / 262144 == a && 0x80 + code / 4096 % 64 == b && 0x80 + code / 64 % 64 == c
            && 0x80 + code % 64 == d
  {
    var code := a % 8 * 262144 + b % 64 * 4096 + c % 64 * 64 + d % 64;
    assert code / 64 == a % 8 * 4096 + b % 64 * 64 + c % 64;
    assert code / 4096 == a % 8 * 64 + b % 64;
  }

  /** Only the bytes of a character read as one, and they read as that one. */
  lemma ReadsOnlyCharacters(bytes: seq<nat>)
    requires First(bytes).Some?
    ensures var read := First(bytes).value; read.size == |Bytes(read.c)| && bytes[..read.size] == Bytes(read.c)
  {
    var taken := bytes[..Announced(bytes[0])];
    match |taken|
    case 1 =>
    case 2 => SpelledTwo(taken[0], taken[1]);
    case 3 => SpelledThree(taken[0], taken[1], taken[2]);
    case _ => SpelledFour(taken[0], taken[1], taken[2], taken[3]);
  }

  /** Decoding undoes encoding, and decodes nothing else: malformed, cut or overlong bytes raise. */
  lemma {:induction false} DecodeExactly(bytes: seq<nat>, text: string)
    ensures Decode(bytes) == Some(text) <==> bytes == Encode(text)
    decreases |bytes|
  {
    DecodeEncode(text);
    if Decode(bytes) == Some(text) && bytes != [] {
      var read := First(bytes).value;
      ReadsOnlyCharacters(bytes);
      DecodeExactly(bytes[read.size..], text[1..]);
      assert bytes == bytes[..read.size] + bytes[read.size..];
    }
  }

  /** The first `size` bytes of a text are the bytes of its first n characters. */
  ghost predicate Ends(text: string, size: nat, n: nat) { n <= |text| && |Encode(text[..n])| == size }

  lemma EncodeStep(text: string, n: nat)
    requires 0 < n <= |text|
    ensures Encode(text[..n]) == Bytes(text[0]) + Encode(text[1..][..n - 1])
  {
    assert text[..n][1..] == text[1..][..n - 1];
  }

  lemma {:induction false} EncodePrefix(text: string, n: nat)
    requires n <= |text|
    ensures Encode(text[..n]) <= Encode(text)
  {
    if n > 0 {
      EncodeStep(text, n);
      EncodePrefix(text[1..], n - 1);
    }
  }

  /** Cutting a text after some bytes leaves its first n characters exactly when those take that many, and
      raises when no number of characters does. */
  lemma {:induction false} CutDecodes(text: string, size: nat)
    requires size <= |Encode(text)|
    ensures forall n: nat :: Ends(text, size, n) ==> Decode(Encode(text)[..size]) == Some(text[..n])
    ensures Decode(Encode(text)[..size]).Some? ==> exists n: nat :: Ends(text, size, n)
  {
    forall n: nat | Ends(text, size, n) ensures Decode(Encode(text)[..size]) == Some(text[..n]) {
      EncodePrefix(text, n);
      assert Encode(text)[..size] == Encode(text[..n]);
      DecodeEncode(text[..n]);
    }
    if size == 0 {
      assert Ends(text, size, 0);
    } else if Decode(Encode(text)[..size]).Some? {
      CutAfterFirst(text, size);
    }
  }

  lemma {:induction false} CutAfterFirst(text: string, size: nat)
    requires 0 < size <= |Encode(text)| && Decode(Encode(text)[..size]).Some?
    ensures exists n: nat :: Ends(text, size, n)
    decreases |text|
  {
    var first, rest := Bytes(text[0]), Encode(text[1..]);
    if size < |first| {
      CutInside(text, size);
    } else {
      var cut := Encode(text)[..size];
      assert cut == first + rest[..size - |first|];
      FirstReads(text[0], rest[..size - |first|]);
      assert cut[|first|..] == rest[..size - |first|];
      var n: nat := 0;
      if size > |first| {
        CutAfterFirst(text[1..], size - |first|);
        n :| Ends(text[1..], size - |first|, n);
      }
      EncodeStep(text, n + 1);
      assert Ends(text, size, n + 1);
    }
  }

  lemma CutInside(text: string, size: nat)
    requires text != [] && 0 < size < |Bytes(text[0])|
    ensures size <= |Encode(text)| && Decode(Encode(text)[..size]) == None
  {
    assert Encode(text)[..size] == Bytes(text[0])[..size];
    FirstCut(text[0], size);
  }
}
