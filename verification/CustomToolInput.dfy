/** The streaming decoder for the input of a custom tool call.

    The arguments of a tool call arrive piece by piece as JSON text. The decoder is run on every
    grown buffer and returns the part of the `input` string that can be decoded so far. Rust's
    byte offsets are character positions here: every slice the source takes ends next to ASCII. */
module CustomToolInput {
  import opened Wrappers
  import opened Text
  import opened Sequences

  // ---------- escapes ----------

  function HexValue(c: char): Option<nat> {
    if '0' <= c <= '9' then Some(c as int - '0' as int)
    else if 'a' <= c <= 'f' then Some(c as int - 'a' as int + 10)
    else if 'A' <= c <= 'F' then Some(c as int - 'A' as int + 10)
    else None
  }

  function HexDigits(s: string): Option<nat> {
    if s == [] then Some(0)
    else
      var high := HexDigits(s[..|s| - 1]);
      var low := HexValue(s[|s| - 1]);
      if high.Some? && low.Some? then Some(16 * high.value + low.value) else None
  }

  lemma {:induction false} HexDigitsBound(s: string)
    requires HexDigits(s).Some? && |s| <= 4
    ensures HexDigits(s).value < (if |s| == 4 then 0x10000 else if |s| == 3 then 0x1000
                                  else if |s| == 2 then 0x100 else if |s| == 1 then 16 else 1)
  {
    if s != [] {
      HexDigitsBound(s[..|s| - 1]);
    }
  }

  /** `u16::from_str_radix` on the next four characters; it also takes a leading plus sign. */
  function ReadHex(s: string): (u: Option<nat>)
    ensures u.Some? ==> u.value < 0x10000
  {
    if |s| < 4 then None
    else
      var digits := if s[0] == '+' then s[1..4] else s[..4];
      var value := HexDigits(digits);
      if value.None? then None else HexDigitsBound(digits); value
  }

  predicate IsHigh(u: nat) { 0xD800 <= u <= 0xDBFF }
  predicate IsLow(u: nat) { 0xDC00 <= u <= 0xDFFF }

  /** The code point of a surrogate pair; `ShiftOrIsSum` relates it to the source's shift and or. */
  function Combine(high: nat, low: nat): (u: nat)
    requires IsHigh(high) && IsLow(low)
    ensures 0x10000 <= u <= 0x10FFFF
  {
    0x10000 + ((high - 0xD800) * 1024 + (low - 0xDC00))
  }

  lemma ShiftOrIsSum(a: bv32, b: bv32)
    requires a < 0x400 && b < 0x400
    ensures (a << 10) | b == a * 1024 + b
  {
  }

  /** Decodes what follows `\u`: the character and how many characters it took. */
  function DecodeUnicode(s: string): (r: Option<(char, nat)>)
    ensures r.Some? ==> r.value.1 <= |s|
  {
    var first := ReadHex(s);
    if first.None? then None
    else if IsHigh(first.value) then
      if |s| < 6 || s[4..6] != "\\u" then None
      else
        var second := ReadHex(s[6..]);
        if second.None? || !IsLow(second.value) then None
        else Some((Combine(first.value, second.value) as char, 10))
    else if IsLow(first.value) then None
    else Some((first.value as char, 4))
  }

  function Unescape(c: char): char {
    match c
    case 'b' => 8 as char
    case 'f' => 12 as char
    case 'n' => '\n'
    case 'r' => '\r'
    case 't' => '\t'
    case _ => c
  }

  // ---------- the scan of a string body ----------

  /** The result of reading a string body: its closing quote was found, the text ended first, or an
      escape is incomplete or invalid. */
  datatype Scanned = Closed(text: string, rest: string) | Open(text: string) | Bad

  function Prepend(text: string, r: Scanned): Scanned {
    match r
    case Closed(t, rest) => Closed(text + t, rest)
    case Open(t) => Open(text + t)
    case Bad => Bad
  }

  function Scan(s: string): Scanned
    decreases |s|
  {
    if s == [] then Open([])
    else if s[0] == '"' then Closed([], s[1..])
    else if s[0] != '\\' then Prepend([s[0]], Scan(s[1..]))
    else if |s| == 1 then Bad
    else if s[1] != 'u' then Prepend([Unescape(s[1])], Scan(s[2..]))
    else
      var decoded := DecodeUnicode(s[2..]);
      if decoded.None? then Bad
      else Prepend([decoded.value.0], Scan(s[2 + decoded.value.1..]))
  }

  function ToPair(r: Scanned): Option<(string, string)> {
    match r
    case Closed(text, rest) => Some((text, rest))
    case Open(text) => Some((text, []))
    case Bad => None
  }

  function ParsePrefix(input: string): Option<(string, string)> {
    if input == [] || input[0] != '"' then None else ToPair(Scan(input[1..]))
  }

  lemma PrependTwice(a: string, b: string, r: Scanned)
    ensures Prepend(a, Prepend(b, r)) == Prepend(a + b, r)
  {
    match r
    case Closed(t, _) => assert a + (b + t) == (a + b) + t;
    case Open(t) => assert a + (b + t) == (a + b) + t;
    case Bad =>
  }

  /** The source's loop: it reads from `pos`, appends to `output`, and stops at the quote, at the end or
      at a bad escape. */
  method ParseJsonStringPrefix(input: string) returns (result: Option<(string, string)>)
    ensures result == ParsePrefix(input)
  {
    if input == [] || input[0] != '"' {
      return None;
    }
    var output := "";
    var pos := 1;
    assert Prepend([], Scan(input[1..])) == Scan(input[1..]);
    while pos < |input|
      invariant 1 <= pos <= |input|
      invariant Scan(input[1..]) == Prepend(output, Scan(input[pos..]))
    {
      var ch := input[pos];
      ghost var rest := input[pos..];
      if ch == '"' {
        assert input[pos + 1..] == rest[1..] && output + [] == output;
        return Some((output, input[pos + 1..]));
      }
      if ch == '\\' {
        if pos + 1 == |input| {
          return None;
        }
        var escaped := input[pos + 1];
        if escaped == 'u' {
          var unicode := DecodeUnicode(input[pos + 2..]);
          assert rest[2..] == input[pos + 2..];
          if unicode == None {
            return None;
          }
          var (c, used) := unicode.value;
          PrependTwice(output, [c], Scan(rest[2 + used..]));
          assert rest[2 + used..] == input[pos + 2 + used..];
          output := output + [c];
          pos := pos + 2 + used;
        } else {
          PrependTwice(output, [Unescape(escaped)], Scan(rest[2..]));
          assert rest[2..] == input[pos + 2..];
          output := output + [Unescape(escaped)];
          pos := pos + 2;
        }
      } else {
        PrependTwice(output, [ch], Scan(rest[1..]));
        assert rest[1..] == input[pos + 1..];
        output := output + [ch];
        pos := pos + 1;
      }
    }
    assert input[pos..] == [] && output + [] == output;
    result := Some((output, ""));
  }

  // ---------- the grammar the scan recognises ----------

  /** One element of a string body as it is written. */
  datatype Token = Literal(c: char) | Short(c: char) | Hex(digits: string) | Pair(high: string, low: string)

  /** What the decoder takes. */
  predicate Accepted(t: Token) {
    match t
    case Literal(c) => c != '"' && c != '\\'
    case Short(c) => c != 'u'
    case Hex(d) => |d| == 4 && ReadHex(d).Some? && !IsHigh(ReadHex(d).value) && !IsLow(ReadHex(d).value)
    case Pair(h, l) =>
      && |h| == 4 && |l| == 4 && ReadHex(h).Some? && ReadHex(l).Some?
      && IsHigh(ReadHex(h).value) && IsLow(ReadHex(l).value)
  }

  /** What section 7 of RFC 8259 allows in a string of Unicode characters. */
  predicate Legal(t: Token) {
    match t
    case Literal(c) => c != '"' && c != '\\' && c >= ' '
    case Short(c) => c in "\"\\/bfnrt"
    case Hex(d) => Accepted(t) && d[0] != '+'
    case Pair(h, l) => Accepted(t) && h[0] != '+' && l[0] != '+'
  }

  function Written(t: Token): string {
    match t
    case Literal(c) => [c]
    case Short(c) => ['\\', c]
    case Hex(d) => "\\u" + d
    case Pair(h, l) => "\\u" + h + "\\u" + l
  }

  function Meaning(t: Token): char
    requires Accepted(t)
  {
    match t
    case Literal(c) => c
    case Short(c) => Unescape(c)
    case Hex(d) => ReadHex(d).value as char
    case Pair(h, l) => Combine(ReadHex(h).value, ReadHex(l).value) as char
  }

  predicate AllAccepted(ts: seq<Token>) {
    forall i :: 0 <= i < |ts| ==> Accepted(ts[i])
  }

  function WrittenAll(ts: seq<Token>): string {
    if ts == [] then [] else Written(ts[0]) + WrittenAll(ts[1..])
  }

  function MeaningAll(ts: seq<Token>): string
    requires AllAccepted(ts)
  {
    if ts == [] then [] else [Meaning(ts[0])] + MeaningAll(ts[1..])
  }

  /** No accepted token starts here, although a backslash does. */
  ghost predicate BadEscape(s: string) {
    s != [] && s[0] == '\\' && forall t :: Accepted(t) ==> !(Written(t) <= s)
  }

  // ---------- the scan and the grammar agree ----------

  lemma ReadHexLocal(d: string, s: string)
    requires |d| == 4 && d <= s
    ensures ReadHex(s) == ReadHex(d)
  {
    assert s[..4] == d == d[..4] && s[1..4] == d[1..4];
  }

  lemma HexDecodes(d: string, rest: string)
    requires Accepted(Hex(d))
    ensures DecodeUnicode(d + rest) == Some((Meaning(Hex(d)), 4))
  {
    ReadHexLocal(d, d + rest);
  }

  lemma PairDecodes(h: string, l: string, rest: string)
    requires Accepted(Pair(h, l))
    ensures DecodeUnicode(h + "\\u" + l + rest) == Some((Meaning(Pair(h, l)), 10))
  {
    var u := h + "\\u" + l + rest;
    assert u[4..6] == "\\u" && u[6..] == l + rest;
    ReadHexLocal(h, u);
    ReadHexLocal(l, u[6..]);
  }

  /** One token is one turn of the scan. */
  lemma TokenScans(t: Token, rest: string)
    requires Accepted(t)
    ensures Scan(Written(t) + rest) == Prepend([Meaning(t)], Scan(rest))
  {
    var s := Written(t) + rest;
    match t
    case Literal(c) => assert s[1..] == rest;
    case Short(c) => assert s[2..] == rest;
    case Hex(d) =>
      assert s[2..] == d + rest && s[2 + 4..] == rest;
      HexDecodes(d, rest);
    case Pair(h, l) =>
      assert s[2..] == h + "\\u" + l + rest && s[2 + 10..] == rest;
      PairDecodes(h, l, rest);
  }

  lemma {:induction false} TokensScan(ts: seq<Token>, tail: string)
    requires AllAccepted(ts)
    ensures Scan(WrittenAll(ts) + tail) == Prepend(MeaningAll(ts), Scan(tail))
  {
    if ts == [] {
      assert WrittenAll(ts) + tail == tail && Prepend([], Scan(tail)) == Scan(tail);
    } else {
      var rest := WrittenAll(ts[1..]) + tail;
      assert WrittenAll(ts) + tail == Written(ts[0]) + rest;
      TokenScans(ts[0], rest);
      TokensScan(ts[1..], tail);
      PrependTwice([Meaning(ts[0])], MeaningAll(ts[1..]), Scan(tail));
    }
  }

  lemma UnicodeTokenDecodes(t: Token, s: string)
    requires Accepted(t) && Written(t) <= s && |s| >= 2 && s[0] == '\\' && s[1] == 'u'
    ensures DecodeUnicode(s[2..]).Some?
  {
    var rest := s[|Written(t)|..];
    assert s == Written(t) + rest;
    assert Written(t)[0] == s[0];
    if |Written(t)| >= 2 {
      assert Written(t)[1] == s[1];
    }
    if t.Hex? {
      assert s[2..] == t.digits + rest;
      HexDecodes(t.digits, rest);
    } else if t.Pair? {
      assert s[2..] == t.high + "\\u" + t.low + rest;
      PairDecodes(t.high, t.low, rest);
    }
  }

  lemma NoUnicodeToken(s: string)
    requires |s| >= 2 && s[0] == '\\' && s[1] == 'u' && DecodeUnicode(s[2..]).None?
    ensures BadEscape(s)
  {
    forall t | Accepted(t) ensures !(Written(t) <= s) {
      if Written(t) <= s {
        UnicodeTokenDecodes(t, s);
      }
    }
  }

  /** The token at the front of a text, if one is accepted there. */
  lemma FirstToken(s: string) returns (t: Option<Token>)
    requires s != [] && s[0] != '"'
    ensures t.Some? ==> Accepted(t.value) && Written(t.value) <= s
    ensures t.None? ==> BadEscape(s) && Scan(s) == Bad
  {
    if s[0] != '\\' {
      t := Some(Literal(s[0]));
    } else if |s| == 1 {
      t := None;
    } else if s[1] != 'u' {
      t := Some(Short(s[1]));
      assert Written(t.value) == s[..2];
    } else {
      var u := s[2..];
      var d := DecodeUnicode(u);
      if d.None? {
        NoUnicodeToken(s);
        t := None;
      } else if d.value.1 == 4 {
        ReadHexLocal(u[..4], u);
        t := Some(Hex(u[..4]));
        assert Written(t.value) == s[..6];
      } else {
        ReadHexLocal(u[..4], u);
        ReadHexLocal(u[6..10], u[6..]);
        t := Some(Pair(u[..4], u[6..10]));
        assert Written(t.value) == s[..12];
      }
    }
  }

  lemma WrittenCons(t: Token, ts: seq<Token>, tail: string)
    ensures WrittenAll([t] + ts) + tail == Written(t) + (WrittenAll(ts) + tail)
  {
    assert ([t] + ts)[1..] == ts;
  }

  /** Every text is a run of tokens followed by its end, a quote or a bad escape. */
  lemma {:induction false} Tokenise(s: string) returns (ts: seq<Token>, tail: string)
    ensures AllAccepted(ts) && s == WrittenAll(ts) + tail
    ensures tail == [] || tail[0] == '"' || (BadEscape(tail) && Scan(tail) == Bad)
    decreases |s|
  {
    ts, tail := [], s;
    if s != [] && s[0] != '"' {
      var t := FirstToken(s);
      if t.Some? {
        var n := |Written(t.value)|;
        ts, tail := Tokenise(s[n..]);
        WrittenCons(t.value, ts, tail);
        assert s == Written(t.value) + s[n..];
        ts := [t.value] + ts;
      }
    }
  }

  ghost predicate Spells(ts: seq<Token>, text: string) {
    AllAccepted(ts) && MeaningAll(ts) == text
  }

  lemma BadEscapeScans(s: string)
    requires BadEscape(s)
    ensures Scan(s) == Bad
  {
    var t := FirstToken(s);
  }

  /** The scan is exactly the grammar: it closes on `text` when some tokens that spell `text` and a
      quote stand before the rest, stays open when they are the whole input, and fails when they
      are followed by a bad escape. */
  lemma ScanIsExact(s: string, text: string, rest: string)
    ensures Scan(s) == Closed(text, rest) <==> exists ts :: Spells(ts, text) && s == WrittenAll(ts) + ("\"" + rest)
    ensures Scan(s) == Open(text) <==> exists ts :: Spells(ts, text) && s == WrittenAll(ts)
    ensures Scan(s) == Bad <==> exists ts, tail :: AllAccepted(ts) && BadEscape(tail) && s == WrittenAll(ts) + tail
  {
    var ts, tail := Tokenise(s);
    TokensScan(ts, tail);
    assert MeaningAll(ts) + [] == MeaningAll(ts) && WrittenAll(ts) + [] == WrittenAll(ts);
    if tail != [] && tail[0] == '"' {
      assert tail == "\"" + tail[1..];
    }
    forall ts | Spells(ts, text) && s == WrittenAll(ts) + ("\"" + rest) ensures Scan(s) == Closed(text, rest) {
      TokensScan(ts, "\"" + rest);
      assert ("\"" + rest)[1..] == rest && text + [] == text;
    }
    forall ts | Spells(ts, text) && s == WrittenAll(ts) ensures Scan(s) == Open(text) {
      TokensScan(ts, []);
      assert WrittenAll(ts) + [] == WrittenAll(ts) && text + [] == text;
    }
    forall ts, tail | AllAccepted(ts) && BadEscape(tail) && s == WrittenAll(ts) + tail ensures Scan(s) == Bad {
      TokensScan(ts, tail);
      BadEscapeScans(tail);
    }
  }

  // ---------- round trip ----------

  predicate AllLegal(ts: seq<Token>) {
    forall i :: 0 <= i < |ts| ==> Legal(ts[i])
  }

  lemma LegalIsAccepted(ts: seq<Token>)
    requires AllLegal(ts)
    ensures AllAccepted(ts)
  {
    forall i | 0 <= i < |ts| ensures Accepted(ts[i]) {
      assert Legal(ts[i]);
    }
  }

  /** Whatever legal escaping a string was written with, parsing gives the string back and leaves what
      follows the closing quote untouched. */
  lemma RoundTrip(ts: seq<Token>, text: string, rest: string)
    requires AllLegal(ts) && (LegalIsAccepted(ts); MeaningAll(ts) == text)
    ensures ParsePrefix("\"" + (WrittenAll(ts) + ("\"" + rest))) == Some((text, rest))
  {
    LegalIsAccepted(ts);
    assert ("\"" + (WrittenAll(ts) + ("\"" + rest)))[1..] == WrittenAll(ts) + ("\"" + rest);
    TokensScan(ts, "\"" + rest);
    assert ("\"" + rest)[1..] == rest && text + [] == text;
  }

  function HexChar(n: nat): char
    requires n < 16
  {
    "0123456789abcdef"[n]
  }

  function Hex4(u: nat): string
    requires u < 0x10000
  {
    [HexChar(u / 4096), HexChar(u / 256 % 16), HexChar(u / 16 % 16), HexChar(u % 16)]
  }

  lemma HexCharReads(n: nat)
    requires n < 16
    ensures HexValue(HexChar(n)) == Some(n) && HexChar(n) != '+'
  {
  }

  lemma FourDigits(a: char, b: char, c: char, d: char)
    requires HexValue(a).Some? && HexValue(b).Some? && HexValue(c).Some? && HexValue(d).Some?
    ensures HexDigits([a, b, c, d])
            == Some(16 * (16 * (16 * HexValue(a).value + HexValue(b).value) + HexValue(c).value) + HexValue(d).value)
  {
    assert [a, b, c, d][..3] == [a, b, c];
    assert [a, b, c][..2] == [a, b];
    assert [a, b][..1] == [a];
    assert [a][..0] == [];
    assert HexDigits([a]) == Some(HexValue(a).value);
    assert HexDigits([a, b]).Some?;
    assert HexDigits([a, b, c]).Some?;
  }

  lemma NibblesAddUp(u: nat)
    requires u < 0x10000
    ensures u / 4096 < 16
    ensures 16 * (16 * (16 * (u / 4096) + u / 256 % 16) + u / 16 % 16) + u % 16 == u
  {
  }

  lemma Hex4Reads(u: nat)
    requires u < 0x10000
    ensures ReadHex(Hex4(u)) == Some(u) && Hex4(u)[0] != '+'
  {
    HexCharReads(u / 4096);
    HexCharReads(u / 256 % 16);
    HexCharReads(u / 16 % 16);
    HexCharReads(u % 16);
    FourDigits(HexChar(u / 4096), HexChar(u / 256 % 16), HexChar(u / 16 % 16), HexChar(u % 16));
    NibblesAddUp(u);
    assert Hex4(u)[..4] == Hex4(u);
  }

  function High(u: nat): nat
    requires 0x10000 <= u <= 0x10FFFF
  {
    0xD800 + (u - 0x10000) / 1024
  }

  function Low(u: nat): nat
    requires 0x10000 <= u <= 0x10FFFF
  {
    0xDC00 + (u - 0x10000) % 1024
  }

  /** The surrogate formula is a bijection between surrogate pairs and U+10000..U+10FFFF. */
  lemma SurrogatesBijective(high: nat, low: nat, u: nat)
    requires IsHigh(high) && IsLow(low) && 0x10000 <= u <= 0x10FFFF
    ensures IsHigh(High(u)) && IsLow(Low(u)) && Combine(High(u), Low(u)) == u
    ensures High(Combine(high, low)) == high && Low(Combine(high, low)) == low
  {
  }

  /** The escaping that writes every character as `\uXXXX` or as a surrogate pair. */
  function EscapeChar(c: char): Token {
    var u := c as int;
    if u < 0x10000 then Hex(Hex4(u)) else Pair(Hex4(High(u)), Hex4(Low(u)))
  }

  function EscapeAll(text: string): seq<Token> {
    if text == [] then [] else [EscapeChar(text[0])] + EscapeAll(text[1..])
  }

  lemma EscapeCharMeans(c: char)
    ensures Legal(EscapeChar(c)) && Accepted(EscapeChar(c)) && Meaning(EscapeChar(c)) == c
  {
    var u := c as int;
    if u < 0x10000 {
      Hex4Reads(u);
    } else {
      Hex4Reads(High(u));
      Hex4Reads(Low(u));
    }
  }

  lemma {:induction false} EscapeAllMeans(text: string)
    ensures AllLegal(EscapeAll(text)) && AllAccepted(EscapeAll(text)) && MeaningAll(EscapeAll(text)) == text
  {
    if text != [] {
      EscapeCharMeans(text[0]);
      EscapeAllMeans(text[1..]);
      assert EscapeAll(text)[1..] == EscapeAll(text[1..]);
    }
  }

  /** Every string has a legal escaping without a single literal character, and it round-trips. */
  lemma {:induction false} FullyEscapedRoundTrip(text: string, rest: string)
    ensures AllLegal(EscapeAll(text))
    ensures ParsePrefix("\"" + (WrittenAll(EscapeAll(text)) + ("\"" + rest))) == Some((text, rest))
  {
    EscapeAllMeans(text);
    RoundTrip(EscapeAll(text), text, rest);
  }

  // ---------- growing buffers ----------

  /** Text after the opening quote of the `input` value, when the wrapper has been read that far. */
  function ValueBody(arguments: string): Option<string> {
    var a := TrimStart(arguments);
    if a == [] || a[0] != '{' then None
    else
      var b := TrimStart(a[1..]);
      var key := ParsePrefix(b);
      if key.None? || key.value.0 != "input" then None
      else
        var c := TrimStart(key.value.1);
        if c == [] || c[0] != ':' then None
        else
          var d := TrimStart(c[1..]);
          if d == [] || d[0] != '"' then None else Some(d[1..])
  }

  /** `partial_wrapped_input_prefix`. */
  function PartialInput(arguments: string): Option<string> {
    var body := ValueBody(arguments);
    if body.None? then None
    else
      var value := ToPair(Scan(body.value));
      if value.None? then None else Some(value.value.0)
  }

  /** `grown` is what `r` becomes when `d` is appended to the text. */
  predicate Continues(r: Scanned, grown: Scanned, d: string) {
    match r
    case Closed(text, rest) => grown == Closed(text, rest + d)
    case Open(text) => grown == Prepend(text, Scan(d))
    case Bad => true
  }

  lemma EndExtends(tail: string, d: string)
    requires tail == [] || tail[0] == '"' || Scan(tail) == Bad
    ensures Continues(Scan(tail), Scan(tail + d), d)
  {
    if tail == [] {
      assert tail + d == d && Prepend([], Scan(d)) == Scan(d);
    } else if tail[0] == '"' {
      assert (tail + d)[1..] == tail[1..] + d;
    }
  }

  lemma PrependContinues(text: string, r: Scanned, grown: Scanned, d: string)
    requires Continues(r, grown, d)
    ensures Continues(Prepend(text, r), Prepend(text, grown), d)
  {
    if r.Open? {
      PrependTwice(text, r.text, Scan(d));
    }
  }

  lemma TokensContinue(ts: seq<Token>, tail: string, d: string)
    requires AllAccepted(ts) && Continues(Scan(tail), Scan(tail + d), d)
    ensures Continues(Scan(WrittenAll(ts) + tail), Scan(WrittenAll(ts) + (tail + d)), d)
  {
    var r, grown := Scan(tail), Scan(tail + d);
    TokensScan(ts, tail);
    TokensScan(ts, tail + d);
    PrependContinues(MeaningAll(ts), r, grown, d);
  }

  /** Appending text to a body only continues the scan. */
  lemma ScanExtends(s: string, d: string)
    ensures Continues(Scan(s), Scan(s + d), d)
  {
    var ts, tail := Tokenise(s);
    EndExtends(tail, d);
    TokensContinue(ts, tail, d);
    Regroup(WrittenAll(ts), tail, d);
  }

  lemma ValueBodyExtends(p: string, d: string)
    requires ValueBody(p).Some?
    ensures ValueBody(p + d) == Some(ValueBody(p).value + d)
  {
    TrimStartExtends(p, d);
    var a := TrimStart(p);
    assert (a + d)[1..] == a[1..] + d;
    var b := TrimStart(a[1..]);
    TrimStartExtends(a[1..], d);
    assert (b + d)[1..] == b[1..] + d;
    ScanExtends(b[1..], d);
    var rest := ParsePrefix(b).value.1;
    var c := TrimStart(rest);
    assert Scan(b[1..]).Closed?;
    TrimStartExtends(rest, d);
    assert (c + d)[1..] == c[1..] + d;
    TrimStartExtends(c[1..], d);
    var e := TrimStart(c[1..]);
    assert (e + d)[1..] == e[1..] + d;
  }

  /** What a grown buffer yields. Once the value's closing quote was in the buffer the answer is final;
      before that, the answer grows by what the new text spells; and it is withdrawn exactly when
      the new text, read from where the value stood open, runs into a bad escape. */
  lemma GrowingBuffer(p: string, d: string)
    requires PartialInput(p).Some?
    ensures var body := ValueBody(p).value;
            match Scan(body)
            case Closed(text, _) => PartialInput(p + d) == PartialInput(p) == Some(text)
            case Open(text) =>
              && PartialInput(p) == Some(text)
              && (PartialInput(p + d) == None <==> Scan(d) == Bad)
              && (Scan(d) != Bad ==> PartialInput(p + d) == Some(text + ToPair(Scan(d)).value.0))
            case Bad => false
  {
    ValueBodyExtends(p, d);
    ScanExtends(ValueBody(p).value, d);
  }

  /** Streaming is monotone: two answers on buffers that extend each other extend each other. */
  lemma StreamingMonotone(p: string, q: string)
    requires p <= q && PartialInput(p).Some? && PartialInput(q).Some?
    ensures PartialInput(p).value <= PartialInput(q).value
  {
    assert q == p + q[|p|..];
    GrowingBuffer(p, q[|p|..]);
  }

  /** An answer is withdrawn only by an incomplete or invalid escape inside the value. */
  lemma OnlyEscapesWithdraw(p: string, q: string)
    requires p <= q && PartialInput(p).Some? && PartialInput(q).None?
    ensures exists ts, tail :: AllAccepted(ts) && BadEscape(tail) && q[|p|..] == WrittenAll(ts) + tail
  {
    assert q == p + q[|p|..];
    GrowingBuffer(p, q[|p|..]);
    ScanIsExact(q[|p|..], [], []);
  }

  // ---------- the complete parse comes first ----------

  /** `partial_custom_tool_input`: `complete` is the answer of the complete JSON parse, and the prefix parser
      is asked when there is none. */
  function PartialCustomInput(complete: string -> Option<string>, arguments: string): Option<string> {
    if complete(arguments).Some? then complete(arguments) else PartialInput(arguments)
  }

  /** A member of an object whose key and value are strings, in some legal escaping. */
  datatype Member = Member(key: seq<Token>, value: seq<Token>) {
    predicate Valid() {
      AllAccepted(key) && AllLegal(key) && AllAccepted(value) && AllLegal(value)
    }
  }

  predicate ValidMembers(members: seq<Member>) {
    members != [] && forall i :: 0 <= i < |members| ==> members[i].Valid()
  }

  function Quoted(ts: seq<Token>, rest: string): string {
    "\"" + (WrittenAll(ts) + ("\"" + rest))
  }

  function MembersText(members: seq<Member>, rest: string): string
    requires members != []
  {
    var more := if |members| == 1 then rest else "," + MembersText(members[1..], rest);
    Quoted(members[0].key, ":" + Quoted(members[0].value, more))
  }

  function ObjectText(members: seq<Member>): string
    requires members != []
  {
    "{" + MembersText(members, "}")
  }

  /** The value under the key `input`; of several the last one. */
  function LastInput(members: seq<Member>): Option<string>
    requires forall i :: 0 <= i < |members| ==> members[i].Valid()
  {
    if members == [] then None
    else
      var last := members[|members| - 1];
      assert last.Valid();
      if MeaningAll(last.key) == "input" then Some(MeaningAll(last.value)) else LastInput(members[..|members| - 1])
  }

  /** The complete parse reads this object of strings as JSON maps are read, and no unfinished part of it. */
  ghost predicate ReadsObject(complete: string -> Option<string>, members: seq<Member>) {
    && ValidMembers(members)
    && complete(ObjectText(members)) == LastInput(members)
    && forall p :: p <= ObjectText(members) && p != ObjectText(members) ==> complete(p).None?
  }

  /** The prefix parser answers the first member, whatever follows it. */
  lemma FirstMemberAnswers(m: Member, rest: string)
    requires m.Valid()
    ensures var text := "{" + Quoted(m.key, ":" + Quoted(m.value, rest));
            && (ValueBody(text).Some? <==> MeaningAll(m.key) == "input")
            && PartialInput(text) == if MeaningAll(m.key) == "input" then Some(MeaningAll(m.value)) else None
  {
    var value := Quoted(m.value, rest);
    var body := Quoted(m.key, ":" + value);
    assert ("{" + body)[1..] == body && TrimStart("{" + body) == "{" + body && TrimStart(body) == body;
    RoundTrip(m.key, MeaningAll(m.key), ":" + value);
    assert (":" + value)[1..] == value && TrimStart(":" + value) == ":" + value && TrimStart(value) == value;
    RoundTrip(m.value, MeaningAll(m.value), rest);
  }

  /** On an object of strings, the two parses agree exactly when there is no input, or when the first member is
      an input and the last one repeats its value. */
  lemma ParsesAgreeExactly(complete: string -> Option<string>, members: seq<Member>)
    requires ReadsObject(complete, members)
    ensures var first := members[0];
            PartialCustomInput(complete, ObjectText(members)) == PartialInput(ObjectText(members))
            <==> LastInput(members).Some? ==>
                   MeaningAll(first.key) == "input" && LastInput(members) == Some(MeaningAll(first.value))
  {
    FirstMemberAnswers(members[0], if |members| == 1 then "}" else "," + MembersText(members[1..], "}"));
  }

  lemma QuotedGrows(ts: seq<Token>, rest: string, more: string)
    requires rest <= more
    ensures Quoted(ts, rest) <= Quoted(ts, more)
  {
    assert Quoted(ts, more) == Quoted(ts, rest) + more[|rest|..];
  }

  /** The buffer that ends with the closing quote of the first value. */
  function FirstMemberText(m: Member): string {
    "{" + Quoted(m.key, ":" + Quoted(m.value, ""))
  }

  /** Over the buffers that grow into a text, a later answer extends every earlier one. */
  ghost predicate StreamsMonotone(complete: string -> Option<string>, text: string) {
    forall p, q :: p <= q <= text && PartialCustomInput(complete, p).Some? && PartialCustomInput(complete, q).Some? ==>
      PartialCustomInput(complete, p).value <= PartialCustomInput(complete, q).value
  }

  lemma FirstMemberGrows(members: seq<Member>)
    requires ValidMembers(members)
    ensures FirstMemberText(members[0]) <= ObjectText(members) && FirstMemberText(members[0]) != ObjectText(members)
    ensures PartialInput(FirstMemberText(members[0]))
            == if MeaningAll(members[0].key) == "input" then Some(MeaningAll(members[0].value)) else None
    ensures PartialInput(ObjectText(members)) == PartialInput(FirstMemberText(members[0]))
    ensures ValueBody(ObjectText(members)).Some? <==> MeaningAll(members[0].key) == "input"
  {
    var first := members[0];
    var more := if |members| == 1 then "}" else "," + MembersText(members[1..], "}");
    FirstMemberAnswers(first, "");
    FirstMemberAnswers(first, more);
    QuotedGrows(first.value, "", more);
    QuotedGrows(first.key, ":" + Quoted(first.value, ""), ":" + Quoted(first.value, more));
  }

  /** Before the object is finished, answers come from the prefix parser, and only when the first member is an
      input; the answer on the whole text extends them all. */
  lemma UnfinishedAnswers(members: seq<Member>, p: string)
    requires ValidMembers(members) && p <= ObjectText(members) && PartialInput(p).Some?
    ensures MeaningAll(members[0].key) == "input" && PartialInput(p).value <= MeaningAll(members[0].value)
  {
    var text := ObjectText(members);
    FirstMemberGrows(members);
    assert text == p + text[|p|..];
    ValueBodyExtends(p, text[|p|..]);
    StreamingMonotone(p, text);
  }

  /** No member is an input, the first one is not, or the last input extends the first value. */
  predicate LastExtendsFirst(members: seq<Member>)
    requires ValidMembers(members)
  {
    LastInput(members).Some? && MeaningAll(members[0].key) == "input" ==>
      MeaningAll(members[0].value) <= LastInput(members).value
  }

  lemma UnfinishedAsksPrefix(complete: string -> Option<string>, members: seq<Member>, p: string)
    requires ReadsObject(complete, members) && p <= ObjectText(members) && p != ObjectText(members)
    ensures PartialCustomInput(complete, p) == PartialInput(p)
  {
    assert complete(p).None?;
  }

  lemma FinishedExtends(complete: string -> Option<string>, members: seq<Member>)
    requires ReadsObject(complete, members) && LastExtendsFirst(members) && MeaningAll(members[0].key) == "input"
    ensures PartialCustomInput(complete, ObjectText(members)).Some?
    ensures MeaningAll(members[0].value) <= PartialCustomInput(complete, ObjectText(members)).value
  {
    FirstMemberGrows(members);
  }

  lemma StreamPair(complete: string -> Option<string>, members: seq<Member>, p: string, q: string)
    requires ReadsObject(complete, members) && LastExtendsFirst(members)
    requires p <= q <= ObjectText(members)
    requires PartialCustomInput(complete, p).Some? && PartialCustomInput(complete, q).Some?
    ensures PartialCustomInput(complete, p).value <= PartialCustomInput(complete, q).value
  {
    var text := ObjectText(members);
    if |p| == |text| {
      assert p == text == q;
    } else {
      UnfinishedAsksPrefix(complete, members, p);
      if |q| == |text| {
        assert q == text;
        UnfinishedAnswers(members, p);
        FinishedExtends(complete, members);
      } else {
        UnfinishedAsksPrefix(complete, members, q);
        StreamingMonotone(p, q);
      }
    }
  }

  lemma StreamBreaks(complete: string -> Option<string>, members: seq<Member>)
    requires ReadsObject(complete, members) && !LastExtendsFirst(members)
    ensures !StreamsMonotone(complete, ObjectText(members))
  {
    var p, text := FirstMemberText(members[0]), ObjectText(members);
    FirstMemberGrows(members);
    assert complete(p).None?;
    assert PartialCustomInput(complete, p) == Some(MeaningAll(members[0].value));
    assert PartialCustomInput(complete, text) == LastInput(members);
  }

  /** Streaming an object of strings is monotone exactly when it has no input, when its first member is another
      one, or when the last input extends the value of the first member. */
  lemma MonotoneStreamExactly(complete: string -> Option<string>, members: seq<Member>)
    requires ReadsObject(complete, members)
    ensures StreamsMonotone(complete, ObjectText(members)) <==> LastExtendsFirst(members)
  {
    if LastExtendsFirst(members) {
      forall p, q | p <= q <= ObjectText(members)
                    && PartialCustomInput(complete, p).Some? && PartialCustomInput(complete, q).Some?
        ensures PartialCustomInput(complete, p).value <= PartialCustomInput(complete, q).value
      {
        StreamPair(complete, members, p, q);
      }
    } else {
      StreamBreaks(complete, members);
    }
  }

  /** An input given twice: the growing buffer shows the first value and the finished object the last one. */
  lemma RepeatedInputStreams(complete: string -> Option<string>, first: Member, last: Member)
    requires first.Valid() && last.Valid() && MeaningAll(first.key) == "input" && MeaningAll(last.key) == "input"
    requires ReadsObject(complete, [first, last])
    ensures FirstMemberText(first) <= ObjectText([first, last])
    ensures PartialCustomInput(complete, FirstMemberText(first)) == Some(MeaningAll(first.value))
    ensures PartialCustomInput(complete, ObjectText([first, last])) == Some(MeaningAll(last.value))
  {
    FirstMemberGrows([first, last]);
    assert LastInput([first, last]) == Some(MeaningAll(last.value));
  }

  const INPUT_KEY := [Literal('i'), Literal('n'), Literal('p'), Literal('u'), Literal('t')]

  lemma InputKeyMeans()
    ensures AllAccepted(INPUT_KEY) && AllLegal(INPUT_KEY) && MeaningAll(INPUT_KEY) == "input"
  {
    assert INPUT_KEY[1..] == [Literal('n'), Literal('p'), Literal('u'), Literal('t')];
    assert INPUT_KEY[1..][1..] == [Literal('p'), Literal('u'), Literal('t')];
    assert INPUT_KEY[1..][1..][1..] == [Literal('u'), Literal('t')];
    assert INPUT_KEY[1..][1..][1..][1..] == [Literal('t')];
  }

  lemma LiteralMeans(c: char)
    requires c != '"' && c != '\\' && c >= ' '
    ensures Member(INPUT_KEY, [Literal(c)]).Valid() && MeaningAll([Literal(c)]) == [c]
  {
    InputKeyMeans();
    assert [Literal(c)][1..] == [];
  }

  /** The inputs `a` and `b`: the second answer does not extend the first. */
  lemma RepeatedInputBreaksStreaming(complete: string -> Option<string>)
    requires ReadsObject(complete, [Member(INPUT_KEY, [Literal('a')]), Member(INPUT_KEY, [Literal('b')])])
    ensures var first, last := Member(INPUT_KEY, [Literal('a')]), Member(INPUT_KEY, [Literal('b')]);
            && FirstMemberText(first) <= ObjectText([first, last])
            && PartialCustomInput(complete, FirstMemberText(first)) == Some("a")
            && PartialCustomInput(complete, ObjectText([first, last])) == Some("b")
  {
    InputKeyMeans();
    LiteralMeans('a');
    LiteralMeans('b');
    RepeatedInputStreams(complete, Member(INPUT_KEY, [Literal('a')]), Member(INPUT_KEY, [Literal('b')]));
  }
}
