/** The TEXT encoding of the distribution column: `json.dumps` (with its
    default `ensure_ascii`) on write, `json.loads` on read. The reader accepts
    JSON objects whose keys are strings and whose values are non-negative
    integers — the only shape the writer produces. */
module DistributionJson {

  import opened Wrappers
  import opened Decimal
  import opened Summarizer

  // ----- hexadecimal digits of `\uXXXX` escapes -----

  function HexDigit(d: nat): (c: char)
    requires d < 16
    ensures ' ' <= c <= '~'
  {
    if d < 10 then DigitChar(d) else ('a' as int + d - 10) as char
  }

  /** The value of one hexadecimal digit, either case. */
  function HexValue(c: char): Option<nat> {
    if '0' <= c <= '9' then Some(c as int - '0' as int)
    else if 'a' <= c <= 'f' then Some(c as int - 'a' as int + 10)
    else if 'A' <= c <= 'F' then Some(c as int - 'A' as int + 10)
    else None
  }

  /** Four lower-case hexadecimal digits, as Python's `'{0:04x}'` writes. */
  function Hex4(n: nat): (s: string)
    requires n < 0x10000
    ensures |s| == 4
    ensures forall i :: 0 <= i < 4 ==> ' ' <= s[i] <= '~'
  {
    var low12 := n % 0x1000;
    var low8 := low12 % 0x100;
    [HexDigit(n / 0x1000), HexDigit(low12 / 0x100), HexDigit(low8 / 0x10), HexDigit(low8 % 0x10)]
  }

  /** The value of the four hexadecimal digits `t` starts with. */
  function ReadHex4(t: string): (r: Option<nat>)
    ensures r.Some? ==> |t| >= 4 && r.value < 0x10000
  {
    if |t| < 4 then None
    else match (HexValue(t[0]), HexValue(t[1]), HexValue(t[2]), HexValue(t[3]))
      case (Some(a), Some(b), Some(c), Some(d)) =>
        if a < 16 && b < 16 && c < 16 && d < 16
        then Some(a * 0x1000 + b * 0x100 + c * 0x10 + d) else None
      case _ => None
  }

  // ----- the writer -----

  /** One character as `json.dumps` writes it inside a string: the seven
      short escapes, printable ASCII as itself, every other character as
      `\uXXXX`, and characters beyond the Basic Multilingual Plane as a
      UTF-16 surrogate pair of such escapes. */
  function EscapeChar(c: char): (s: string)
    ensures |s| >= 1
    ensures forall i :: 0 <= i < |s| ==> ' ' <= s[i] <= '~'
  {
    if c == '"' then "\\\""
    else if c == '\\' then "\\\\"
    else if c == '\n' then "\\n"
    else if c == '\r' then "\\r"
    else if c == '\t' then "\\t"
    else if c as int == 0x08 then "\\b"
    else if c as int == 0x0C then "\\f"
    else if ' ' <= c <= '~' then [c]
    else if c as int < 0x10000 then "\\u" + Hex4(c as int)
    else
      var n := c as int - 0x10000;
      "\\u" + Hex4(0xD800 + n / 0x400) + "\\u" + Hex4(0xDC00 + n % 0x400)
  }

  function Escape(s: string): (r: string)
    ensures forall i :: 0 <= i < |r| ==> ' ' <= r[i] <= '~'
  {
    if s == [] then [] else EscapeChar(s[0]) + Escape(s[1..])
  }

  function Quote(s: string): (r: string)
    ensures forall i :: 0 <= i < |r| ==> ' ' <= r[i] <= '~'
  {
    "\"" + Escape(s) + "\""
  }

  function EncodeEntry(e: Entry): (r: string)
    ensures forall i :: 0 <= i < |r| ==> ' ' <= r[i] <= '~'
  {
    var digits := Show(e.count);
    assert forall i :: 0 <= i < |digits| ==> IsDigit(digits[i]);
    Quote(e.key) + ": " + digits
  }

  function EncodeEntries(d: seq<Entry>): (r: string)
    ensures forall i :: 0 <= i < |r| ==> ' ' <= r[i] <= '~'
  {
    if d == [] then []
    else if |d| == 1 then EncodeEntry(d[0])
    else EncodeEntry(d[0]) + ", " + EncodeEntries(d[1..])
  }

  /** `json.dumps(distribution)`: an object whose members are written in
      the dict's order, `"key": count`, separated by `, `. With
      `ensure_ascii` the whole text is printable ASCII. */
  function Encode(d: seq<Entry>): (r: string)
    ensures |r| >= 2 && r[0] == '{' && r[|r| - 1] == '}'
    ensures forall i :: 0 <= i < |r| ==> ' ' <= r[i] <= '~'
  {
    "{" + EncodeEntries(d) + "}"
  }

  // ----- the reader -----

  predicate IsWs(c: char) {
    c == ' ' || c == '\t' || c == '\n' || c == '\r'
  }

  function SkipWs(t: string): (r: string)
    ensures |r| <= |t|
    ensures r == [] || !IsWs(r[0])
  {
    if t != [] && IsWs(t[0]) then SkipWs(t[1..]) else t
  }

  /** The character a one-letter escape stands for. */
  function ShortEscape(c: char): Option<char> {
    if c == '"' then Some('"')
    else if c == '\\' then Some('\\')
    else if c == '/' then Some('/')
    else if c == 'b' then Some(0x08 as char)
    else if c == 'f' then Some(0x0C as char)
    else if c == 'n' then Some('\n')
    else if c == 'r' then Some('\r')
    else if c == 't' then Some('\t')
    else None
  }

  /** Reads the rest of a `\u` escape: four hexadecimal digits, and for a
      high surrogate a second `\u` escape holding the low surrogate. A lone
      surrogate has no character to stand for and is refused. */
  function ReadUnicodeEscape(t: string): (r: Option<(char, string)>)
    ensures r.Some? ==> |r.value.1| < |t|
  {
    match ReadHex4(t)
    case None => None
    case Some(n) =>
      if 0xD800 <= n < 0xDC00 then
        if |t| >= 6 && t[4] == '\\' && t[5] == 'u' then
          match ReadHex4(t[6..])
          case None => None
          case Some(m) =>
            if 0xDC00 <= m < 0xE000
            then Some(((0x10000 + (n - 0xD800) * 0x400 + (m - 0xDC00)) as char, t[10..]))
            else None
        else None
      else if 0xDC00 <= n < 0xE000 then None
      else Some((n as char, t[4..]))
  }

  /** Reads an escape; `t` is the text after the backslash. */
  function ReadEscape(t: string): (r: Option<(char, string)>)
    ensures r.Some? ==> |r.value.1| < |t|
  {
    if t == [] then None
    else if t[0] == 'u' then ReadUnicodeEscape(t[1..])
    else match ShortEscape(t[0])
      case None => None
      case Some(c) => Some((c, t[1..]))
  }

  /** Reads the characters of a string up to its closing quote and returns
      them with the text after the quote. Raw control characters are
      refused, as the strict reader does. */
  function ReadChars(t: string): (r: Option<(string, string)>)
    ensures r.Some? ==> |r.value.1| < |t|
  {
    if t == [] then None
    else if t[0] == '"' then Some(([], t[1..]))
    else if t[0] == '\\' then
      match ReadEscape(t[1..])
      case None => None
      case Some((c, t')) => Prepend(c, ReadChars(t'))
    else if t[0] < ' ' then None
    else Prepend(t[0], ReadChars(t[1..]))
  }

  function Prepend(c: char, r: Option<(string, string)>): Option<(string, string)> {
    match r
    case None => None
    case Some((s, rest)) => Some(([c] + s, rest))
  }

  function ReadKey(t: string): (r: Option<(string, string)>)
    ensures r.Some? ==> |r.value.1| < |t|
  {
    if t != [] && t[0] == '"' then ReadChars(t[1..]) else None
  }

  /** Reads a JSON integer made of digits only. A number with a
      superfluous leading zero is refused, as `json.loads` refuses it. */
  function ReadCount(t: string): (r: Option<(nat, string)>)
    ensures r.Some? ==> |r.value.1| < |t|
  {
    var n := LeadingDigits(t);
    if n == 0 then None
    else match ReadNat(t[..n])
      case None => None
      case Some(v) => Some((v, t[n..]))
  }

  /** Adds a member to a dict being built: a repeated key keeps its first
      position and takes the later value, as `dict(pairs)` does. */
  function Put(d: seq<Entry>, k: string, v: nat): (r: seq<Entry>)
    ensures Keys(r) == Keys(d) + {k}
    ensures KeysDistinct(d) ==> KeysDistinct(r)
  {
    if d == [] then [Entry(k, v)]
    else if d[0].key == k then [Entry(k, v)] + d[1..]
    else
      var rest := Put(d[1..], k, v);
      assert KeysDistinct(d) ==> KeysDistinct([d[0]] + rest) by {
        if KeysDistinct(d) {
          forall e | e in d[1..] ensures e.key != d[0].key {
            var j :| 0 <= j < |d[1..]| && d[1..][j] == e;
            assert d[j + 1] == e;
          }
          forall j | 0 <= j < |rest| ensures rest[j].key != d[0].key {
            assert rest[j] in rest;
            assert rest[j].key in Keys(rest);
          }
        }
      }
      KeysCons(d[0], rest);
      KeysCons(d[0], d[1..]);
      assert [d[0]] + d[1..] == d;
      [d[0]] + rest
  }

  lemma KeysCons(e: Entry, d: seq<Entry>)
    ensures Keys([e] + d) == {e.key} + Keys(d)
  {
    forall x | x in Keys(d) ensures x in Keys([e] + d) {
      var y :| y in d && y.key == x;
      assert y in [e] + d;
    }
  }

  /** Reads one member — a key, a colon and a count — and the whitespace
      after it. */
  function ReadMember(t: string): (r: Option<(Entry, string)>)
    ensures r.Some? ==> |r.value.1| < |t|
  {
    match ReadKey(t)
    case None => None
    case Some((k, t1)) =>
      var t2 := SkipWs(t1);
      if t2 == [] || t2[0] != ':' then None
      else match ReadCount(SkipWs(t2[1..]))
        case None => None
        case Some((v, t3)) => Some((Entry(k, v), SkipWs(t3)))
  }

  /** Reads the members of an object from a key onwards, through the closing
      brace and any trailing whitespace. */
  function ReadMembers(t: string, acc: seq<Entry>): (r: Option<seq<Entry>>)
    ensures r.Some? && KeysDistinct(acc) ==> KeysDistinct(r.value)
    decreases |t|
  {
    match ReadMember(t)
    case None => None
    case Some((e, t4)) =>
      var acc' := Put(acc, e.key, e.count);
      if t4 != [] && t4[0] == ',' then ReadMembers(SkipWs(t4[1..]), acc')
      else if t4 != [] && t4[0] == '}' && SkipWs(t4[1..]) == [] then Some(acc')
      else None
  }

  /** `json.loads(text)`, where the result must be an object of counts.
      What it gives back is a dict: no key occurs twice. */
  function Decode(text: string): (r: Option<seq<Entry>>)
    ensures r.Some? ==> SkipWs(text) != [] && SkipWs(text)[0] == '{'
    ensures r.Some? ==> KeysDistinct(r.value)
  {
    var t := SkipWs(text);
    if t == [] || t[0] != '{' then None
    else
      var t1 := SkipWs(t[1..]);
      if t1 != [] && t1[0] == '}' then
        if SkipWs(t1[1..]) == [] then Some([]) else None
      else ReadMembers(t1, [])
  }

  // ----- the round trip -----

  lemma HexRoundTrip(d: nat)
    requires d < 16
    ensures HexValue(HexDigit(d)) == Some(d)
  {
  }

  lemma {:induction false} ReadHex4Hex4(n: nat, rest: string)
    requires n < 0x10000
    ensures ReadHex4(Hex4(n) + rest) == Some(n)
  {
    var low12 := n % 0x1000;
    var low8 := low12 % 0x100;
    var t := Hex4(n) + rest;
    HexRoundTrip(n / 0x1000);
    HexRoundTrip(low12 / 0x100);
    HexRoundTrip(low8 / 0x10);
    HexRoundTrip(low8 % 0x10);
    assert t[0] == HexDigit(n / 0x1000);
    assert t[1] == HexDigit(low12 / 0x100);
    assert t[2] == HexDigit(low8 / 0x10);
    assert t[3] == HexDigit(low8 % 0x10);
    assert n == (n / 0x1000) * 0x1000 + low12;
    assert low12 == (low12 / 0x100) * 0x100 + low8;
    assert low8 == (low8 / 0x10) * 0x10 + low8 % 0x10;
  }

  /** Reading one escaped character gives the character back and continues
      with whatever follows. */
  lemma ReadEscapeChar(c: char, more: string)
    ensures ReadChars(EscapeChar(c) + more) == Prepend(c, ReadChars(more))
  {
    if c == '"' || c == '\\' || c == '\n' || c == '\r' || c == '\t'
       || c as int == 0x08 || c as int == 0x0C {
      ReadShortEscape(c, more);
    } else if ' ' <= c <= '~' {
      assert (EscapeChar(c) + more)[1..] == more;
    } else if c as int < 0x10000 {
      ReadBmpEscape(c, more);
    } else {
      ReadSurrogatePair(c, more);
    }
  }

  /** How the string reader proceeds over a backslash escape. */
  lemma ReadCharsEscapeStep(t: string, c: char, more: string)
    requires t != [] && t[0] == '\\'
    requires ReadEscape(t[1..]) == Some((c, more))
    ensures ReadChars(t) == Prepend(c, ReadChars(more))
  {
  }

  lemma ReadShortEscape(c: char, more: string)
    requires c == '"' || c == '\\' || c == '\n' || c == '\r' || c == '\t'
             || c as int == 0x08 || c as int == 0x0C
    ensures ReadChars(EscapeChar(c) + more) == Prepend(c, ReadChars(more))
  {
    var t := EscapeChar(c) + more;
    assert |EscapeChar(c)| == 2 && t[0] == '\\';
    assert t[1..][1..] == more;
    ReadCharsEscapeStep(t, c, more);
  }

  lemma ReadBmpEscape(c: char, more: string)
    requires c != '"' && c != '\\' && c != '\n' && c != '\r' && c != '\t'
    requires c as int != 0x08 && c as int != 0x0C
    requires !(' ' <= c <= '~') && c as int < 0x10000
    ensures ReadChars(EscapeChar(c) + more) == Prepend(c, ReadChars(more))
  {
    var t := EscapeChar(c) + more;
    var h := Hex4(c as int);
    assert t == "\\u" + (h + more);
    assert t[1..][1..] == h + more;
    ReadBmpUnicode(c, more);
    ReadCharsEscapeStep(t, c, more);
  }

  lemma ReadBmpUnicode(c: char, more: string)
    requires c as int < 0x10000
    ensures ReadUnicodeEscape(Hex4(c as int) + more) == Some((c, more))
  {
    var h := Hex4(c as int);
    ReadHex4Hex4(c as int, more);
    assert (h + more)[4..] == more;
  }

  /** The two `\u` escapes of a surrogate pair read back as the one
      character they encode. */
  lemma ReadSurrogateEscapes(c: char, more: string)
    requires c as int >= 0x10000
    ensures var n := c as int - 0x10000;
      ReadUnicodeEscape(Hex4(0xD800 + n / 0x400) + ("\\u" + (Hex4(0xDC00 + n % 0x400) + more)))
        == Some((c, more))
  {
    var n := c as int - 0x10000;
    SurrogateSplit(c);
    ReadPair(0xD800 + n / 0x400, 0xDC00 + n % 0x400, more);
  }

  /** A high and a low surrogate escape, read together. */
  lemma ReadPair(hi: nat, lo: nat, more: string)
    requires 0xD800 <= hi < 0xDC00 && 0xDC00 <= lo < 0xE000
    ensures ReadUnicodeEscape(Hex4(hi) + ("\\u" + (Hex4(lo) + more)))
         == Some(((0x10000 + (hi - 0xD800) * 0x400 + (lo - 0xDC00)) as char, more))
  {
    var tail := "\\u" + (Hex4(lo) + more);
    var u := Hex4(hi) + tail;
    assert ReadHex4(u) == Some(hi) by {
      ReadHex4Hex4(hi, tail);
    }
    assert u[4] == '\\' && u[5] == 'u' && u[6..] == Hex4(lo) + more;
    assert ReadHex4(u[6..]) == Some(lo) by {
      ReadHex4Hex4(lo, more);
    }
    assert u[6..][4..] == more;
    ReadEscapedPair(u, hi, lo);
  }

  lemma ReadEscapedPair(u: string, hi: nat, lo: nat)
    requires 0xD800 <= hi < 0xDC00 && 0xDC00 <= lo < 0xE000
    requires ReadHex4(u) == Some(hi)
    requires |u| >= 6 && u[4] == '\\' && u[5] == 'u'
    requires ReadHex4(u[6..]) == Some(lo)
    ensures ReadUnicodeEscape(u) == Some(((0x10000 + (hi - 0xD800) * 0x400 + (lo - 0xDC00)) as char, u[6..][4..]))
  {
    assert u[10..] == u[6..][4..];
  }

  /** A character beyond the basic plane splits into a high and a low
      surrogate that recombine into it. */
  lemma SurrogateSplit(c: char)
    requires c as int >= 0x10000
    ensures var n := c as int - 0x10000;
      && 0xD800 <= 0xD800 + n / 0x400 < 0xDC00
      && 0xDC00 <= 0xDC00 + n % 0x400 < 0xE000
      && 0x10000 + (n / 0x400) * 0x400 + n % 0x400 == c as int
  {
  }

  lemma ReadSurrogatePair(c: char, more: string)
    requires c as int >= 0x10000
    ensures ReadChars(EscapeChar(c) + more) == Prepend(c, ReadChars(more))
  {
    var n := c as int - 0x10000;
    var a := Hex4(0xD800 + n / 0x400);
    var b := Hex4(0xDC00 + n % 0x400);
    var u := a + ("\\u" + (b + more));
    EscapeAstral(c);
    Regroup("\\u", a, b, more);
    ReadSurrogateEscapes(c, more);
    ReadUnicodeStep(u, c, more);
  }

  lemma EscapeAstral(c: char)
    requires c as int >= 0x10000
    ensures var n := c as int - 0x10000;
      EscapeChar(c) == (("\\u" + Hex4(0xD800 + n / 0x400)) + "\\u") + Hex4(0xDC00 + n % 0x400)
  {
  }

  lemma Regroup(p: string, a: string, b: string, more: string)
    ensures (((p + a) + p) + b) + more == p + (a + (p + (b + more)))
  {
    Associate(p + a, p, b, more);
    Associate3(p, a, p + (b + more));
  }

  lemma ReadUnicodeStep(u: string, c: char, more: string)
    requires ReadUnicodeEscape(u) == Some((c, more))
    ensures ReadChars("\\u" + u) == Prepend(c, ReadChars(more))
  {
    var t := "\\u" + u;
    assert t[1..][1..] == u;
    ReadCharsEscapeStep(t, c, more);
  }

  lemma {:induction false} ReadEscaped(s: string, rest: string)
    ensures ReadChars(Escape(s) + "\"" + rest) == Some((s, rest))
  {
    if s == [] {
      assert Escape(s) + "\"" + rest == "\"" + rest;
    } else {
      assert Escape(s) + "\"" + rest == EscapeChar(s[0]) + (Escape(s[1..]) + "\"" + rest);
      ReadEscapeChar(s[0], Escape(s[1..]) + "\"" + rest);
      ReadEscaped(s[1..], rest);
      assert [s[0]] + s[1..] == s;
    }
  }

  /** A quoted key is read back exactly. */
  lemma ReadQuoted(k: string, rest: string)
    ensures ReadKey(Quote(k) + rest) == Some((k, rest))
  {
    assert (Quote(k) + rest)[1..] == Escape(k) + "\"" + rest;
    ReadEscaped(k, rest);
  }

  /** A printed count is read back exactly. */
  lemma ReadShown(v: nat, rest: string)
    requires rest == [] || !IsDigit(rest[0])
    ensures ReadCount(Show(v) + rest) == Some((v, rest))
  {
    LeadingDigitsOfShow(v, rest);
    ReadShow(v);
    var t := Show(v) + rest;
    assert t[..|Show(v)|] == Show(v);
    assert t[|Show(v)|..] == rest;
  }

  lemma {:induction false} PutNew(d: seq<Entry>, k: string, v: nat)
    requires k !in Keys(d)
    ensures Put(d, k, v) == d + [Entry(k, v)]
  {
    if d != [] {
      assert d[0] in d;
      assert Keys(d[1..]) <= Keys(d);
      PutNew(d[1..], k, v);
    }
  }

  /** The reader takes one written member apart: its key, the colon, and
      its count, leaving the separator that follows. */
  lemma ReadEncodedMember(e: Entry, rest: string)
    requires rest != [] && !IsDigit(rest[0]) && !IsWs(rest[0])
    ensures ReadMember(EncodeEntry(e) + rest) == Some((e, rest))
  {
    var t2 := ": " + (Show(e.count) + rest);
    var t := EncodeEntry(e) + rest;
    assert t == Quote(e.key) + t2 by {
      Associate(Quote(e.key), ": ", Show(e.count), rest);
    }
    assert ReadKey(t) == Some((e.key, t2)) by {
      ReadQuoted(e.key, t2);
    }
    assert SkipWs(t2) == t2;
    assert ReadCount(SkipWs(t2[1..])) == Some((e.count, rest)) by {
      ReadEncodedCount(e, rest);
    }
    assert SkipWs(rest) == rest;
    ReadMemberOf(t, e.key, t2, e.count, rest);
  }

  /** The steps of reading one member, put together. */
  lemma ReadMemberOf(t: string, k: string, t2: string, v: nat, rest: string)
    requires ReadKey(t) == Some((k, t2))
    requires SkipWs(t2) == t2 && t2 != [] && t2[0] == ':'
    requires ReadCount(SkipWs(t2[1..])) == Some((v, rest))
    requires SkipWs(rest) == rest
    ensures ReadMember(t) == Some((Entry(k, v), rest))
  {
  }

  lemma ReadEncodedCount(e: Entry, rest: string)
    requires rest != [] && !IsDigit(rest[0])
    ensures ReadCount(SkipWs((": " + (Show(e.count) + rest))[1..])) == Some((e.count, rest))
  {
    var t2 := ": " + (Show(e.count) + rest);
    assert t2[1..] == " " + (Show(e.count) + rest);
    assert SkipWs(t2[1..]) == SkipWs(Show(e.count) + rest);
    assert !IsWs(Show(e.count)[0]);
    assert (Show(e.count) + rest)[0] == Show(e.count)[0];
    ReadShown(e.count, rest);
  }

  /** The first key still to be read is not among those already read. */
  lemma FreshKey(acc: seq<Entry>, d: seq<Entry>)
    requires d != [] && KeysDistinct(acc + d)
    ensures Put(acc, d[0].key, d[0].count) == acc + [d[0]]
  {
    forall i | 0 <= i < |acc| ensures acc[i].key != d[0].key {
      assert (acc + d)[i] == acc[i] && (acc + d)[|acc|] == d[0];
    }
    assert d[0].key !in Keys(acc);
    PutNew(acc, d[0].key, d[0].count);
  }

  lemma EncodeEntriesCons(d: seq<Entry>)
    requires |d| >= 2
    ensures EncodeEntries(d) + "}" == EncodeEntry(d[0]) + (", " + (EncodeEntries(d[1..]) + "}"))
  {
    var a := EncodeEntry(d[0]);
    var b := EncodeEntries(d[1..]);
    assert EncodeEntries(d) == a + ", " + b;
    Associate(a, ", ", b, "}");
  }

  lemma Associate3<T>(a: seq<T>, b: seq<T>, c: seq<T>)
    ensures (a + b) + c == a + (b + c)
  {
  }

  lemma Associate<T>(a: seq<T>, b: seq<T>, c: seq<T>, d: seq<T>)
    ensures ((a + b) + c) + d == a + (b + (c + d))
  {
  }

  lemma ReadLastMember(e: Entry, acc: seq<Entry>)
    ensures ReadMembers(EncodeEntry(e) + "}", acc) == Some(Put(acc, e.key, e.count))
  {
    assert ReadMember(EncodeEntry(e) + "}") == Some((e, "}")) by {
      ReadEncodedMember(e, "}");
    }
    assert SkipWs("}"[1..]) == [];
    ReadMembersEnd(EncodeEntry(e) + "}", acc, e, "}");
  }

  lemma ReadNextMember(d: seq<Entry>, acc: seq<Entry>)
    requires |d| >= 2
    ensures ReadMembers(EncodeEntries(d) + "}", acc)
         == ReadMembers(EncodeEntries(d[1..]) + "}", Put(acc, d[0].key, d[0].count))
  {
    var next := EncodeEntries(d[1..]) + "}";
    var rest := ", " + next;
    FirstMember(d, rest);
    SkipSeparator(d[1..], next);
    ReadMembersStep(EncodeEntries(d) + "}", acc, d[0], rest);
  }

  lemma FirstMember(d: seq<Entry>, rest: string)
    requires |d| >= 2
    requires rest == ", " + (EncodeEntries(d[1..]) + "}")
    ensures ReadMember(EncodeEntries(d) + "}") == Some((d[0], rest))
  {
    EncodeEntriesCons(d);
    ReadEncodedMember(d[0], rest);
  }

  lemma SkipSeparator(d: seq<Entry>, next: string)
    requires d != []
    requires next == EncodeEntries(d) + "}"
    ensures SkipWs((", " + next)[1..]) == next
  {
    EncodeEntriesStart(d);
    assert next[0] == '"';
    SkipSpace(next);
  }

  lemma SkipSpace(next: string)
    requires next != [] && !IsWs(next[0])
    ensures SkipWs((", " + next)[1..]) == next
  {
    assert (", " + next)[1..] == " " + next;
    assert (" " + next)[1..] == next;
  }

  /** A member followed by a comma: the next member is read into the dict
      grown by this one. */
  lemma ReadMembersStep(t: string, acc: seq<Entry>, e: Entry, rest: string)
    requires ReadMember(t) == Some((e, rest))
    requires rest != [] && rest[0] == ','
    ensures ReadMembers(t, acc) == ReadMembers(SkipWs(rest[1..]), Put(acc, e.key, e.count))
  {
  }

  /** A member followed by the closing brace ends the object. */
  lemma ReadMembersEnd(t: string, acc: seq<Entry>, e: Entry, rest: string)
    requires ReadMember(t) == Some((e, rest))
    requires rest != [] && rest[0] == '}' && SkipWs(rest[1..]) == []
    ensures ReadMembers(t, acc) == Some(Put(acc, e.key, e.count))
  {
  }

  lemma EncodeEntriesStart(d: seq<Entry>)
    requires d != []
    ensures EncodeEntries(d) != [] && EncodeEntries(d)[0] == '"'
  {
    assert EncodeEntry(d[0])[0] == '"';
  }

  lemma {:induction false} ReadEncodedMembers(d: seq<Entry>, acc: seq<Entry>)
    requires d != []
    requires KeysDistinct(acc + d)
    ensures ReadMembers(EncodeEntries(d) + "}", acc) == Some(acc + d)
  {
    var acc' := acc + [d[0]];
    assert Put(acc, d[0].key, d[0].count) == acc' by {
      FreshKey(acc, d);
    }
    assert acc' + d[1..] == acc + d by {
      Shift(acc, d);
    }
    if |d| == 1 {
      assert EncodeEntries(d) == EncodeEntry(d[0]);
      ReadLastMember(d[0], acc);
      assert acc' == acc + d;
    } else {
      ReadNextMember(d, acc);
      ReadEncodedMembers(d[1..], acc');
    }
  }

  lemma Shift<T>(a: seq<T>, b: seq<T>)
    requires b != []
    ensures (a + [b[0]]) + b[1..] == a + b
  {
    assert [b[0]] + b[1..] == b;
  }

  /** Reading back what the writer produced gives the same dict, in the same
      order. */
  lemma DecodeEncode(d: seq<Entry>)
    requires KeysDistinct(d)
    ensures Decode(Encode(d)) == Some(d)
  {
    if d == [] {
      DecodeEmpty();
    } else {
      var body := EncodeEntries(d) + "}";
      assert Encode(d) == "{" + body;
      assert body[0] == '"' by {
        assert EncodeEntries(d)[0] == EncodeEntry(d[0])[0];
      }
      assert Decode("{" + body) == ReadMembers(body, []) by {
        DecodeObject(body);
      }
      assert [] + d == d;
      ReadEncodedMembers(d, []);
    }
  }

  lemma DecodeEmpty()
    ensures Decode(Encode([])) == Some([])
  {
    assert Encode([]) == "{}";
    assert SkipWs("{}") == "{}";
    assert SkipWs("}") == "}";
    assert "}"[1..] == [];
  }

  /** An object whose first member starts at once is read member by
      member. */
  lemma DecodeObject(body: string)
    requires body != [] && body[0] == '"'
    ensures Decode("{" + body) == ReadMembers(body, [])
  {
    var text := "{" + body;
    assert SkipWs(text) == text;
    assert text[1..] == body;
    assert SkipWs(body) == body;
  }

  /** The writer never writes two dicts the same way. */
  lemma EncodeInjective(d1: seq<Entry>, d2: seq<Entry>)
    requires KeysDistinct(d1) && KeysDistinct(d2)
    requires Encode(d1) == Encode(d2)
    ensures d1 == d2
  {
    DecodeEncode(d1);
    DecodeEncode(d2);
  }
}
