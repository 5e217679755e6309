/** The text of JSON documents: the compact printer, the string escaper, and the hand-written
    scanner that cuts an object's text into its fields without parsing them. */
module JsonText {
  import opened Bytes

  const QUOTE: byte := 0x22
  const BACKSLASH: byte := 0x5C
  const COMMA: byte := 0x2C
  const COLON: byte := 0x3A
  const OPEN_BRACE: byte := 0x7B
  const CLOSE_BRACE: byte := 0x7D
  const OPEN_BRACKET: byte := 0x5B
  const CLOSE_BRACKET: byte := 0x5D
  const LETTER_U: byte := 0x75

  const NULL: Bytes := [0x6E, 0x75, 0x6C, 0x6C]
  const TRUE: Bytes := [0x74, 0x72, 0x75, 0x65]
  const FALSE: Bytes := [0x66, 0x61, 0x6C, 0x73, 0x65]

  /** `{"__enc":1`, the start of an encrypted envelope. */
  const ENVELOPE: Bytes := [OPEN_BRACE, QUOTE, 0x5F, 0x5F, 0x65, 0x6E, 0x63, QUOTE, COLON, 0x31]

  // --------------------------------------------------------------------------------------
  // UTF-8
  // --------------------------------------------------------------------------------------

  predicate Continues(c: byte) { 0x80 <= c <= 0xBF }

  /** Length of the character `b` starts with; 0 when it starts with none. */
  function CharWidth(b: Bytes): (w: nat)
    ensures w <= |b| && (b != [] && b[0] < 0x80 ==> w == 1) && (w == 1 ==> b[0] < 0x80)
  {
    if b == [] then 0
    else if b[0] < 0x80 then 1
    else if 0xC2 <= b[0] <= 0xDF && |b| >= 2 && Continues(b[1]) then 2
    else if 0xE0 <= b[0] <= 0xEF && |b| >= 3 && Continues(b[1]) && Continues(b[2])
      && (b[0] == 0xE0 ==> b[1] >= 0xA0) && (b[0] == 0xED ==> b[1] <= 0x9F) then 3
    else if 0xF0 <= b[0] <= 0xF4 && |b| >= 4 && Continues(b[1]) && Continues(b[2]) && Continues(b[3])
      && (b[0] == 0xF0 ==> b[1] >= 0x90) && (b[0] == 0xF4 ==> b[1] <= 0x8F) then 4
    else 0
  }

  predicate ValidUtf8(b: Bytes)
    decreases |b|
  {
    b == [] || (CharWidth(b) > 0 && ValidUtf8(b[CharWidth(b)..]))
  }

  /** Encoding of a code point below 0x10000; a surrogate becomes the replacement character. */
  function EncodeChar(cp: nat): Bytes
    requires cp < 0x1_0000
  {
    if cp < 0x80 then [cp]
    else if cp < 0x800 then [0xC0 + cp / 0x40, 0x80 + cp % 0x40]
    else if 0xD800 <= cp <= 0xDFFF then [0xEF, 0xBF, 0xBD]
    else [0xE0 + cp / 0x1000, 0x80 + cp / 0x40 % 0x40, 0x80 + cp % 0x40]
  }

  // --------------------------------------------------------------------------------------
  // Printing strings
  // --------------------------------------------------------------------------------------

  function HexDigit(n: nat): byte
    requires n < 16
  {
    if n < 10 then 0x30 + n else 0x61 + (n - 10)
  }

  function EscapeByte(c: byte): (r: Bytes)
    ensures r != []
  {
    if c == QUOTE || c == BACKSLASH then [BACKSLASH, c]
    else if c == 0x0A then [BACKSLASH, 0x6E]
    else if c == 0x0D then [BACKSLASH, 0x72]
    else if c == 0x09 then [BACKSLASH, 0x74]
    else if c == 0x08 then [BACKSLASH, 0x62]
    else if c == 0x0C then [BACKSLASH, 0x66]
    else if c < 0x20 then [BACKSLASH, LETTER_U, 0x30, 0x30, HexDigit(c / 16), HexDigit(c % 16)]
    else [c]
  }

  function Escape(s: Bytes): Bytes {
    if s == [] then [] else EscapeByte(s[0]) + Escape(s[1..])
  }

  function Quote(s: Bytes): Bytes {
    [QUOTE] + (Escape(s) + [QUOTE])
  }

  lemma {:induction false} EscapeConcat(a: Bytes, b: Bytes)
    ensures Escape(a + b) == Escape(a) + Escape(b)
    decreases |a|
  {
    if a == [] {
      assert a + b == b;
    } else {
      assert (a + b)[1..] == a[1..] + b;
      EscapeConcat(a[1..], b);
    }
  }

  lemma {:induction false} EscapePlain(s: Bytes)
    requires forall i :: 0 <= i < |s| ==> EscapeByte(s[i]) == [s[i]]
    ensures Escape(s) == s
    decreases |s|
  {
    if s != [] { EscapePlain(s[1..]); }
  }

  predicate NeedsEscape(c: byte) { EscapeByte(c) != [c] }

  /** The bytes of a character beyond ASCII are all beyond ASCII. */
  lemma WideChar(b: Bytes)
    requires CharWidth(b) > 0 && b[0] >= 0x80
    ensures forall i :: 0 <= i < CharWidth(b) ==> b[i] >= 0x80
  {
  }

  /** Escaping up to the next character, which is either one escaped byte or copied as it is. */
  lemma EscapeNextChar(text: Bytes, index: nat, width: nat)
    requires index + width <= |text| && width > 0
    requires text[index] < 0x80 ==> width == 1
    requires text[index] >= 0x80 ==> forall i :: index <= i < index + width ==> text[i] >= 0x80
    ensures Escape(text[..index + width]) == Escape(text[..index]) +
        (if text[index] < 0x80 && NeedsEscape(text[index]) then EscapeByte(text[index])
         else text[index..index + width])
  {
    var ch := text[index..index + width];
    assert text[..index + width] == text[..index] + ch;
    EscapeConcat(text[..index], ch);
    if text[index] < 0x80 {
      assert ch == [text[index]] && ch[1..] == [];
    } else {
      EscapePlain(ch);
    }
  }

  /** The character at `index`: where the next one starts, and its escape if it needs one. */
  method NextChar(text: Bytes, index: nat) returns (next: nat, escaped: Option<Bytes>)
    requires index < |text| && ValidUtf8(text[index..])
    ensures index < next <= |text| && ValidUtf8(text[next..])
    ensures Escape(text[..next]) == Escape(text[..index]) +
      match escaped { case Some(e) => e case None => text[index..next] }
  {
    var left := text[index..];
    next := index + CharWidth(left);
    assert left[CharWidth(left)..] == text[next..];
    if left[0] >= 0x80 { WideChar(left); }
    assert forall i :: index <= i < next ==> text[i] == left[i - index];
    EscapeNextChar(text, index, CharWidth(left));
    var c := text[index];
    escaped := if c < 0x80 && NeedsEscape(c) then Some(EscapeByte(c)) else None;
  }

  // --------------------------------------------------------------------------------------
  // Scanning strings
  // --------------------------------------------------------------------------------------

  function HexValue(c: byte): Option<nat> {
    if 0x30 <= c <= 0x39 then Some(c as int - 0x30)
    else if 0x61 <= c <= 0x66 then Some(c as int - 0x61 + 10)
    else if 0x41 <= c <= 0x46 then Some(c as int - 0x41 + 10)
    else None
  }

  function HexNumber(h: Bytes): Option<nat> {
    if h == [] then Some(0)
    else match HexNumber(h[..|h| - 1])
      case None => None
      case Some(n) => match HexValue(h[|h| - 1]) case None => None case Some(d) => Some(16 * n + d)
  }

  function Power16(n: nat): nat { if n == 0 then 1 else 16 * Power16(n - 1) }

  lemma {:induction false} HexBound(h: Bytes)
    requires |h| <= 4
    ensures HexNumber(h).Some? ==> HexNumber(h).value < Power16(|h|) <= 0x1_0000
    decreases |h|
  {
    if h != [] { HexBound(h[..|h| - 1]); }
    assert Power16(4) == 16 * Power16(3) == 256 * Power16(2);
  }

  /** Radix-16 parsing of four bytes; the first may be a plus sign. */
  function Hex4(h: Bytes): (r: Option<nat>)
    requires |h| == 4
    ensures r.Some? ==> r.value < 0x1_0000
  {
    var d := if h[0] == 0x2B then h[1..] else h;
    HexBound(d);
    HexNumber(d)
  }

  /** What a backslash followed by `b` stands for, and the bytes after the escape. */
  function Unescape(b: Bytes): (r: Option<(Bytes, Bytes)>)
    ensures r.Some? ==> |r.value.1| < |b|
  {
    if b == [] then None
    else if b[0] == QUOTE || b[0] == BACKSLASH || b[0] == 0x2F then Some(([b[0]], b[1..]))
    else if b[0] == 0x62 then Some(([0x08], b[1..]))
    else if b[0] == 0x66 then Some(([0x0C], b[1..]))
    else if b[0] == 0x6E then Some(([0x0A], b[1..]))
    else if b[0] == 0x72 then Some(([0x0D], b[1..]))
    else if b[0] == 0x74 then Some(([0x09], b[1..]))
    else if b[0] == LETTER_U && |b| >= 5 then
      match Hex4(b[1..5]) case None => None case Some(cp) => Some((EncodeChar(cp), b[5..]))
    else None
  }

  /** One step inside a string: the bytes it contributes and the bytes after it. */
  function ScanStep(b: Bytes): (r: Option<(Bytes, Bytes)>)
    requires b != []
    ensures r.Some? ==> |r.value.1| < |b|
  {
    if b[0] == BACKSLASH then Unescape(b[1..]) else Some(([b[0]], b[1..]))
  }

  /** Inside a string with `out` read so far: the whole string and the bytes after its quote. */
  function ScanChars(b: Bytes, out: Bytes): (r: Option<(Bytes, Bytes)>)
    ensures r.Some? ==> |r.value.1| < |b|
    decreases |b|
  {
    if b == [] then None
    else if b[0] == QUOTE then (if ValidUtf8(out) then Some((out, b[1..])) else None)
    else match ScanStep(b) case None => None case Some((o, rest)) => ScanChars(rest, out + o)
  }

  function ScanString(b: Bytes): (r: Option<(Bytes, Bytes)>)
    ensures r.Some? ==> |r.value.1| < |b|
  {
    if b == [] || b[0] != QUOTE then None else ScanChars(b[1..], [])
  }

  lemma HexSnoc(h: Bytes, c: byte)
    requires HexNumber(h).Some? && HexValue(c).Some?
    ensures HexNumber(h + [c]) == Some(16 * HexNumber(h).value + HexValue(c).value)
  {
    assert (h + [c])[..|h|] == h;
  }

  lemma HexPair(hi: byte, lo: byte)
    requires HexValue(hi).Some? && HexValue(lo).Some?
    ensures Hex4([0x30, 0x30, hi, lo]) == Some(16 * HexValue(hi).value + HexValue(lo).value)
  {
    HexSnoc([], 0x30);
    assert [] + [0x30] == [0x30] && [0x30] + [0x30] == [0x30, 0x30];
    HexSnoc([0x30], 0x30);
    assert [0x30, 0x30] + [hi] == [0x30, 0x30, hi];
    HexSnoc([0x30, 0x30], hi);
    assert [0x30, 0x30, hi] + [lo] == [0x30, 0x30, hi, lo];
    HexSnoc([0x30, 0x30, hi], lo);
  }

  lemma EscapedByteScans(c: byte, rest: Bytes)
    ensures EscapeByte(c)[0] != QUOTE
    ensures ScanStep(EscapeByte(c) + rest) == Some(([c], rest))
  {
    var e := EscapeByte(c);
    if |e| <= 2 {
      assert (e + rest)[1..] == e[1..] + rest;
    } else {
      var hi, lo := HexDigit(c / 16), HexDigit(c % 16);
      var b := [LETTER_U, 0x30, 0x30, hi, lo] + rest;
      assert (e + rest)[1..] == b;
      assert b[1..5] == [0x30, 0x30, hi, lo] && b[5..] == rest;
      HexPair(hi, lo);
    }
  }

  lemma {:induction false} EscapedScans(s: Bytes, post: Bytes, out: Bytes)
    requires ValidUtf8(out + s)
    ensures ScanChars(Escape(s) + ([QUOTE] + post), out) == Some((out + s, post))
    decreases |s|
  {
    if s == [] {
      assert Escape(s) + ([QUOTE] + post) == [QUOTE] + post && out + s == out;
    } else {
      var rest := Escape(s[1..]) + ([QUOTE] + post);
      Assoc(EscapeByte(s[0]), Escape(s[1..]), [QUOTE] + post);
      EscapedByteScans(s[0], rest);
      assert out + [s[0]] + s[1..] == out + s;
      EscapedScans(s[1..], post, out + [s[0]]);
    }
  }

  lemma QuoteOpens(s: Bytes, post: Bytes)
    ensures Quote(s) + post == [QUOTE] + (Escape(s) + ([QUOTE] + post))
  {
    Assoc([QUOTE], Escape(s) + [QUOTE], post);
    Assoc(Escape(s), [QUOTE], post);
  }

  lemma OpenScans(inner: Bytes)
    ensures ScanString([QUOTE] + inner) == ScanChars(inner, [])
  {
    assert ([QUOTE] + inner)[1..] == inner;
  }

  /** Scanning what the escaper printed gives back the string and stops just past its quote. */
  lemma QuotedScans(s: Bytes, post: Bytes)
    requires ValidUtf8(s)
    ensures ScanString(Quote(s) + post) == Some((s, post))
  {
    QuoteOpens(s, post);
    OpenScans(Escape(s) + ([QUOTE] + post));
    assert [] + s == s;
    EscapedScans(s, post, []);
  }

  /** Push a string character by character, copying the stretches that need no escape. What is not
      UTF-8 is replaced first: `lossy` is that replacement. */
  method PushJsonString(out: Bytes, bytes: Bytes, lossy: Bytes -> Bytes) returns (r: Bytes)
    requires ValidUtf8(lossy(bytes))
    ensures r == out + Quote(lossy(bytes))
  {
    var text := lossy(bytes);
    r := out + [QUOTE];
    ghost var before := r;
    var start, index := 0, 0;
    while index < |text|
      invariant 0 <= start <= index <= |text|
      invariant ValidUtf8(text[index..])
      invariant r + text[start..index] == before + Escape(text[..index])
    {
      var next, escaped := NextChar(text, index);
      if escaped.Some? {
        r := r + text[start..index];
        r := r + escaped.value;
        Assoc(before, Escape(text[..index]), escaped.value);
        start := next;
      } else {
        assert text[start..next] == text[start..index] + text[index..next];
        Assoc(r, text[start..index], text[index..next]);
        Assoc(before, Escape(text[..index]), text[index..next]);
      }
      index := next;
    }
    assert text[..|text|] == text;
    r := r + text[start..];
    Assoc(before, Escape(text), [QUOTE]);
    Assoc(out, [QUOTE], Escape(text) + [QUOTE]);
    r := r + [QUOTE];
  }

  // --------------------------------------------------------------------------------------
  // The scanning loop
  // --------------------------------------------------------------------------------------

  lemma Advance(b: Bytes, i: nat, n: nat)
    requires i + n <= |b|
    ensures b[i..][n..] == b[i + n..]
  {
  }

  /** The escape after a backslash at `i - 1`, with the index after it. */
  method ReadEscape(b: Bytes, i: nat) returns (r: Option<(Bytes, nat)>)
    requires i <= |b|
    ensures r.None? <==> Unescape(b[i..]).None?
    ensures r.Some? ==> i < r.value.1 <= |b| && Unescape(b[i..]) == Some((r.value.0, b[r.value.1..]))
  {
    if i >= |b| {
      return None;
    }
    var e := b[i];
    Advance(b, i, 1);
    if e == LETTER_U {
      if i + 5 > |b| {
        return None;
      }
      Advance(b, i, 5);
      assert b[i..][1..5] == b[i + 1..i + 5];
      var cp := Hex4(b[i + 1..i + 5]);
      return if cp.None? then None else Some((EncodeChar(cp.value), i + 5));
    }
    if e == QUOTE || e == BACKSLASH || e == 0x2F {
      return Some(([e], i + 1));
    } else if e == 0x62 {
      return Some(([0x08], i + 1));
    } else if e == 0x66 {
      return Some(([0x0C], i + 1));
    } else if e == 0x6E {
      return Some(([0x0A], i + 1));
    } else if e == 0x72 {
      return Some(([0x0D], i + 1));
    } else if e == 0x74 {
      return Some(([0x09], i + 1));
    } else {
      return None;
    }
  }

  method ReadStep(b: Bytes, i: nat) returns (r: Option<(Bytes, nat)>)
    requires i < |b|
    ensures r.None? <==> ScanStep(b[i..]).None?
    ensures r.Some? ==> i < r.value.1 <= |b| && ScanStep(b[i..]) == Some((r.value.0, b[r.value.1..]))
  {
    Advance(b, i, 1);
    if b[i] == BACKSLASH {
      r := ReadEscape(b, i + 1);
    } else {
      r := Some(([b[i]], i + 1));
    }
  }

  /** Scan the string literal at `i`: its decoded bytes and the index after its closing quote. */
  method ScanJsonString(b: Bytes, i: nat) returns (r: Option<(Bytes, nat)>)
    requires i <= |b|
    ensures r.None? <==> ScanString(b[i..]).None?
    ensures r.Some? ==> i < r.value.1 <= |b| && ScanString(b[i..]) == Some((r.value.0, b[r.value.1..]))
  {
    if i >= |b| || b[i] != QUOTE {
      return None;
    }
    var j, out := i + 1, [];
    Advance(b, i, 1);
    while j < |b|
      invariant i < j <= |b|
      invariant ScanChars(b[i + 1..], []) == ScanChars(b[j..], out)
    {
      if b[j] == QUOTE {
        Advance(b, j, 1);
        return if ValidUtf8(out) then Some((out, j + 1)) else None;
      }
      var step := ReadStep(b, j);
      if step.None? {
        return None;
      }
      out, j := out + step.value.0, step.value.1;
    }
    return None;
  }
}
