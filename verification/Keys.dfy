/**
 Public keys as text, and the allowlist that names the permitted senders.  Text is a
 sequence of Unicode characters, as a valid UTF-8 file decodes to.
 */
module Keys {
  import opened Wrappers
  import opened ByteCodec

  datatype ParseError = NotHex | WrongSize(bytes: nat)

  // Hexadecimal.

  function HexDigit(n: nat): char
    requires n < 16
  {
    if n < 10 then '0' + n as char else 'a' + (n - 10) as char
  }

  function HexValue(c: char): (n: Option<nat>)
    ensures n.Some? ==> n.value < 16
  {
    if '0' <= c <= '9' then Some(c as int - '0' as int)
    else if 'a' <= c <= 'f' then Some(c as int - 'a' as int + 10)
    else if 'A' <= c <= 'F' then Some(c as int - 'A' as int + 10)
    else None
  }

  /** The sixteen digits, and the two alphabets they are read from. */
  lemma HexAlphabet(c: char, n: nat)
    requires n < 16
    ensures HexDigit(n) == "0123456789abcdef"[n]
    ensures HexValue(c) == Some(n) <==> c == "0123456789abcdef"[n] || c == "0123456789ABCDEF"[n]
  {
    assert n < 10 ==> HexDigit(n) as int == 48 + n && "0123456789abcdef"[n] as int == 48 + n;
    assert n >= 10 ==> HexDigit(n) as int == 87 + n && "0123456789abcdef"[n] as int == 87 + n;
    assert n >= 10 ==> "0123456789ABCDEF"[n] as int == 55 + n;
    assert n < 10 ==> "0123456789ABCDEF"[n] as int == 48 + n;
  }

  function ToHex(bytes: Bytes): string {
    if bytes == [] then "" else [HexDigit(bytes[0] / 16), HexDigit(bytes[0] % 16)] + ToHex(bytes[1..])
  }

  function FromHex(s: string): Option<Bytes> {
    if s == [] then Some([])
    else if |s| == 1 || HexValue(s[0]).None? || HexValue(s[1]).None? then None
    else
      match FromHex(s[2..])
      case None => None
      case Some(rest) => Some([HexValue(s[0]).value * 16 + HexValue(s[1]).value] + rest)
  }

  /** Hexadecimal digits in lower case, everything else as it is. */
  function LowerChar(c: char): char {
    if 'A' <= c <= 'F' then c - 'A' + 'a' else c
  }

  function Lowered(s: string): string {
    if s == [] then [] else [LowerChar(s[0])] + Lowered(s[1..])
  }

  lemma DigitIff(c: char, n: nat)
    requires n < 16
    ensures HexValue(c) == Some(n) <==> LowerChar(c) == HexDigit(n)
  {
    var m := c as int;
    assert LowerChar(c) as int == if 65 <= m <= 70 then m + 32 else m;
    assert HexDigit(n) as int == if n < 10 then 48 + n else 87 + n;
  }

  lemma LoweredPair(s: string)
    requires |s| >= 2
    ensures Lowered(s) == [LowerChar(s[0]), LowerChar(s[1])] + Lowered(s[2..])
  {
    assert s[1..][1..] == s[2..];
  }

  /** Exactly the texts that are a byte string's digits, in either case, decode to it. */
  lemma {:induction false} FromHexIff(s: string, bytes: Bytes)
    ensures FromHex(s) == Some(bytes) <==> Lowered(s) == ToHex(bytes)
  {
    if |s| >= 2 && bytes != [] {
      var b, rest := bytes[0], bytes[1..];
      FromHexIff(s[2..], rest);
      LoweredPair(s);
      DigitIff(s[0], b / 16);
      DigitIff(s[1], b % 16);
      assert Lowered(s) == ToHex(bytes)
        <==> LowerChar(s[0]) == HexDigit(b / 16) && LowerChar(s[1]) == HexDigit(b % 16) && Lowered(s[2..]) == ToHex(rest) by {
        PairSplits(LowerChar(s[0]), LowerChar(s[1]), Lowered(s[2..]), HexDigit(b / 16), HexDigit(b % 16), ToHex(rest));
      }
      assert bytes == [b] + rest;
      DecodedPair(s, b, rest);
    } else if |s| == 1 {
      assert |Lowered(s)| == 1;
      HexLength(bytes);
    } else {
      HexLength(bytes);
    }
  }

  lemma PairSplits(a: char, b: char, x: string, c: char, d: char, y: string)
    ensures [a, b] + x == [c, d] + y <==> a == c && b == d && x == y
  {
    assert ([a, b] + x)[2..] == x && ([c, d] + y)[2..] == y;
    assert ([a, b] + x)[0] == a && ([a, b] + x)[1] == b && ([c, d] + y)[0] == c && ([c, d] + y)[1] == d;
  }

  lemma DecodedPair(s: string, b: Byte, rest: Bytes)
    requires |s| >= 2
    ensures FromHex(s) == Some([b] + rest)
       <==> HexValue(s[0]) == Some(b / 16) && HexValue(s[1]) == Some(b % 16) && FromHex(s[2..]) == Some(rest)
  {
    if FromHex(s) == Some([b] + rest) {
      assert ([b] + rest)[1..] == rest && ([b] + rest)[0] == b;
      var decoded := FromHex(s[2..]).value;
      assert FromHex(s).value[1..] == decoded;
    }
  }

  lemma {:induction false} HexLength(bytes: Bytes)
    ensures |ToHex(bytes)| == 2 * |bytes|
  {
    if bytes != [] {
      HexLength(bytes[1..]);
    }
  }

  /** Every byte is two digits, the high one first. */
  lemma {:induction false} HexByPosition(bytes: Bytes, i: nat)
    requires i < |bytes|
    ensures |ToHex(bytes)| == 2 * |bytes|
    ensures ToHex(bytes)[2 * i] == "0123456789abcdef"[bytes[i] / 16]
    ensures ToHex(bytes)[2 * i + 1] == "0123456789abcdef"[bytes[i] % 16]
  {
    HexLength(bytes);
    if i == 0 {
      HexAlphabet(' ', bytes[0] / 16);
      HexAlphabet(' ', bytes[0] % 16);
    } else {
      var pair := [HexDigit(bytes[0] / 16), HexDigit(bytes[0] % 16)];
      HexByPosition(bytes[1..], i - 1);
      assert ToHex(bytes) == pair + ToHex(bytes[1..]);
      assert ToHex(bytes)[2 * i] == ToHex(bytes[1..])[2 * (i - 1)];
      assert ToHex(bytes)[2 * i + 1] == ToHex(bytes[1..])[2 * (i - 1) + 1];
    }
  }

  // White space.

  /** Unicode's White_Space characters. */
  predicate IsSpace(c: char) {
    || '\t' <= c <= '\r' || c == ' ' || c == '\U{0085}' || c == '\U{00A0}' || c == '\U{1680}'
    || '\U{2000}' <= c <= '\U{200A}' || c == '\U{2028}' || c == '\U{2029}' || c == '\U{202F}' || c == '\U{205F}' || c == '\U{3000}'
  }

  /** By code point. */
  lemma SpaceIff(c: char)
    ensures IsSpace(c)
       <==> || c as int in {9, 10, 11, 12, 13, 32, 0x85, 0xA0, 0x1680, 0x2028, 0x2029, 0x202F, 0x205F, 0x3000}
            || 0x2000 <= c as int <= 0x200A
  {
    assert c as int == 0x85 <==> c == '\U{0085}';
    assert c as int == 0xA0 <==> c == '\U{00A0}';
    assert c as int == 0x1680 <==> c == '\U{1680}';
  }

  ghost predicate AllSpace(s: string) {
    forall i | 0 <= i < |s| :: IsSpace(s[i])
  }

  ghost predicate NoSpace(s: string) {
    forall i | 0 <= i < |s| :: !IsSpace(s[i])
  }

  function TrimLeft(s: string): (t: string)
    ensures |t| <= |s| && (t != [] ==> !IsSpace(t[0]))
  {
    if s != [] && IsSpace(s[0]) then TrimLeft(s[1..]) else s
  }

  function TrimRight(s: string): (t: string)
    ensures |t| <= |s| && (t != [] ==> !IsSpace(t[|t| - 1]))
  {
    if s != [] && IsSpace(s[|s| - 1]) then TrimRight(s[..|s| - 1]) else s
  }

  function TrimSpace(s: string): string {
    TrimRight(TrimLeft(s))
  }

  lemma {:induction false} TrimLeftSplits(s: string)
    ensures var n := |s| - |TrimLeft(s)|; AllSpace(s[..n]) && s[n..] == TrimLeft(s)
  {
    if s != [] && IsSpace(s[0]) {
      TrimLeftSplits(s[1..]);
    }
  }

  lemma {:induction false} TrimRightSplits(s: string)
    ensures AllSpace(s[|TrimRight(s)|..]) && s[..|TrimRight(s)|] == TrimRight(s)
  {
    if s != [] && IsSpace(s[|s| - 1]) {
      var front := s[..|s| - 1];
      TrimRightSplits(front);
      assert s[|TrimRight(s)|..] == front[|TrimRight(front)|..] + [s[|s| - 1]];
    }
  }

  lemma {:induction false} TrimLeftOfPadded(pad: string, s: string)
    requires AllSpace(pad)
    ensures TrimLeft(pad + s) == TrimLeft(s)
  {
    if pad == [] {
      assert pad + s == s;
    } else {
      assert (pad + s)[1..] == pad[1..] + s;
      TrimLeftOfPadded(pad[1..], s);
    }
  }

  lemma {:induction false} TrimRightOfPadded(s: string, pad: string)
    requires AllSpace(pad)
    ensures TrimRight(s + pad) == TrimRight(s)
  {
    if pad == [] {
      assert s + pad == s;
    } else {
      var n := |pad| - 1;
      assert (s + pad)[..|s + pad| - 1] == s + pad[..n];
      TrimRightOfPadded(s, pad[..n]);
    }
  }

  lemma {:induction false} TrimRightOfAppend(a: string, b: string)
    ensures TrimRight(a + b) == if TrimRight(b) == [] then TrimRight(a) else a + TrimRight(b)
  {
    if b == [] {
      assert a + b == a;
    } else if IsSpace(b[|b| - 1]) {
      assert (a + b)[..|a + b| - 1] == a + b[..|b| - 1];
      TrimRightOfAppend(a, b[..|b| - 1]);
    }
  }

  /** Trimming takes space off both ends. */
  lemma TrimSplits(s: string) returns (before: string, after: string)
    ensures s == before + TrimSpace(s) + after
    ensures AllSpace(before) && AllSpace(after)
    ensures TrimSpace(s) == [] ==> before == s
    ensures TrimSpace(s) != [] ==> TrimLeft(TrimSpace(s)) == TrimSpace(s)
  {
    var t := TrimLeft(s);
    TrimLeftSplits(s);
    TrimRightSplits(t);
    before, after := s[..|s| - |t|], t[|TrimRight(t)|..];
    if TrimRight(t) == [] && t != [] {
      assert false;
    }
  }

  lemma TrimOfBlank(s: string)
    requires AllSpace(s)
    ensures TrimSpace(s) == []
  {
    TrimLeftOfPadded(s, []);
    assert s + [] == s;
  }

  lemma {:induction false} TrimSpaceOfPadded(s: string, pad: string)
    requires AllSpace(pad)
    ensures TrimSpace(s + pad) == TrimSpace(s)
  {
    if s == [] {
      assert s + pad == pad;
      TrimOfBlank(pad);
    } else if IsSpace(s[0]) {
      assert (s + pad)[1..] == s[1..] + pad;
      TrimSpaceOfPadded(s[1..], pad);
    } else {
      TrimRightOfPadded(s, pad);
    }
  }

  // Public keys.

  function Format(pub: Key): string {
    ToHex(pub)
  }

  function Parse(s: string): Result<Key, ParseError> {
    match FromHex(TrimSpace(s))
    case None => Err(NotHex)
    case Some(raw) => if |raw| != 32 then Err(WrongSize(|raw|)) else Ok(raw)
  }

  /** A text names a key exactly when, without surrounding space and in lower case, it is the key's own rendering. */
  lemma ParseIff(s: string, pub: Key)
    ensures Parse(s) == Ok(pub) <==> Lowered(TrimSpace(s)) == Format(pub)
  {
    FromHexIff(TrimSpace(s), pub);
  }

  /** A text that names no key is no hexadecimal, or that of another number of bytes than 32, and the error says which. */
  lemma ParseFailsIff(s: string, n: nat)
    ensures Parse(s) == Err(NotHex) <==> forall bytes :: Lowered(TrimSpace(s)) != ToHex(bytes)
    ensures Parse(s) == Err(WrongSize(n)) <==> n != 32 && exists bytes :: |bytes| == n && Lowered(TrimSpace(s)) == ToHex(bytes)
  {
    var text := TrimSpace(s);
    forall bytes
      ensures FromHex(text) == Some(bytes) <==> Lowered(text) == ToHex(bytes)
    {
      FromHexIff(text, bytes);
    }
    if FromHex(text).Some? {
      assert Lowered(text) == ToHex(FromHex(text).value);
    }
  }

  lemma {:induction false} LoweredAt(s: string)
    ensures |Lowered(s)| == |s|
    ensures forall i | 0 <= i < |s| :: Lowered(s)[i] == LowerChar(s[i])
  {
    if s != [] {
      LoweredAt(s[1..]);
    }
  }

  predicate IsHexDigit(c: char) {
    HexValue(c).Some?
  }

  lemma {:induction false} HexIsPlain(bytes: Bytes)
    ensures forall i | 0 <= i < |ToHex(bytes)| :: IsHexDigit(ToHex(bytes)[i]) && LowerChar(ToHex(bytes)[i]) == ToHex(bytes)[i]
  {
    if bytes != [] {
      HexIsPlain(bytes[1..]);
    }
  }

  /** A key in either case is 64 characters, none of them space. */
  lemma KeyIsPlain(word: string, pub: Key)
    requires Lowered(word) == Format(pub)
    ensures |word| == 64 && NoSpace(word) && forall i | 0 <= i < |word| :: IsHexDigit(word[i])
  {
    HexIsPlain(pub);
    HexLength(pub);
    LoweredAt(word);
    forall i | 0 <= i < |word|
      ensures IsHexDigit(word[i]) && !IsSpace(word[i])
    {
      assert LowerChar(word[i]) == Format(pub)[i];
      DigitIsPlain(word[i]);
    }
  }

  lemma DigitIsPlain(c: char)
    requires IsHexDigit(LowerChar(c))
    ensures IsHexDigit(c) && !IsSpace(c)
  {
  }

  lemma FormatIsLower(pub: Key)
    ensures Lowered(Format(pub)) == Format(pub)
  {
    HexIsPlain(pub);
    LoweredAt(Format(pub));
  }

  lemma TrimOfPlain(s: string)
    requires NoSpace(s)
    ensures TrimSpace(s) == s
  {
  }

  /** What `Format` renders, `Parse` reads, whatever space surrounds it. */
  lemma ParseOfFormat(pub: Key, before: string, after: string)
    requires AllSpace(before) && AllSpace(after)
    ensures Parse(before + Format(pub) + after) == Ok(pub)
  {
    FormatIsLower(pub);
    KeyIsPlain(Format(pub), pub);
    var text := Format(pub);
    assert TrimLeft(text + after) == text + after by {
      assert !IsSpace((text + after)[0]);
    }
    assert before + text + after == before + (text + after);
    TrimLeftOfPadded(before, text + after);
    TrimRightOfPadded(text, after);
    ParseIff(before + text + after, pub);
  }
}
