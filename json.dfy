/**
 * The part of JSON that the account store writes and reads back: strings
 * (escaped the way JSON.stringify escapes them), non-negative integers,
 * true, false, null, and flat objects whose members hold those values.
 *
 * The store serialises ledger derivation metadata and local-key bundles with
 * JSON.stringify and reads them with JSON.parse. Both are library calls; this
 * module gives them a concrete text form so that "what was written is what is
 * read back" is a proved lemma (ParseStringify).
 */
module Json {
  import opened Wrappers

  datatype Scalar = Str(s: string) | Num(n: nat) | Bool(b: bool) | Null
  datatype Member = Member(key: string, value: Scalar)
  /** A JSON document: a single value, or an object of members in text order. */
  datatype Value = Atom(scalar: Scalar) | Object(members: seq<Member>)

  const Backspace: char := 8 as char
  const FormFeed: char := 12 as char

  predicate IsDigit(c: char) { '0' <= c <= '9' }

  predicate AllDigits(d: string) { forall i | 0 <= i < |d| :: IsDigit(d[i]) }

  function DigitChar(d: nat): (c: char)
    requires d < 10
    ensures IsDigit(c) && c as int - '0' as int == d
  {
    ('0' as int + d) as char
  }

  /** Lower-case hexadecimal digit, as JSON.stringify writes in \u escapes. */
  function HexDigit(d: nat): (c: char)
    requires d < 16
    ensures HexValue(c) == Some(d)
  {
    if d < 10 then DigitChar(d) else ('a' as int + d - 10) as char
  }

  function HexValue(c: char): (r: Option<nat>)
    ensures r.Some? ==> r.value < 16
    ensures r.Some? <==> ('0' <= c <= '9' || 'a' <= c <= 'f' || 'A' <= c <= 'F')
  {
    if '0' <= c <= '9' then Some(c as int - '0' as int)
    else if 'a' <= c <= 'f' then Some(c as int - 'a' as int + 10)
    else if 'A' <= c <= 'F' then Some(c as int - 'A' as int + 10)
    else None
  }

  predicate IsScalarValue(v: int) { 0 <= v < 0xD800 || 0xE000 <= v < 0x11_0000 }

  // ---------------------------------------------------------------- writing

  /** How JSON.stringify writes one character inside a string literal. */
  function EscapeChar(c: char): string
  {
    if c == '"' then ['\\', '"']
    else if c == '\\' then ['\\', '\\']
    else if c == Backspace then ['\\', 'b']
    else if c == FormFeed then ['\\', 'f']
    else if c == '\n' then ['\\', 'n']
    else if c == '\r' then ['\\', 'r']
    else if c == '\t' then ['\\', 't']
    else if (c as int) < 0x20 then ['\\', 'u', '0', '0', HexDigit(c as int / 16), HexDigit(c as int % 16)]
    else [c]
  }

  function Escape(s: string): string
  {
    if s == [] then [] else EscapeChar(s[0]) + Escape(s[1..])
  }

  function Quote(s: string): string
  {
    ['"'] + Escape(s) + ['"']
  }

  /** Decimal text of a natural number, without leading zeros. */
  function Digits(n: nat): (r: string)
    ensures |r| >= 1 && AllDigits(r)
    ensures n == 0 ==> r == ['0']
    ensures n > 0 ==> r[0] != '0'
  {
    if n < 10 then [DigitChar(n)] else Digits(n / 10) + [DigitChar(n % 10)]
  }

  function ScalarText(v: Scalar): string
  {
    match v
    case Str(s) => Quote(s)
    case Num(n) => Digits(n)
    case Bool(b) => if b then "true" else "false"
    case Null => "null"
  }

  function MemberText(m: Member): string
  {
    Quote(m.key) + [':'] + ScalarText(m.value)
  }

  function MembersText(ms: seq<Member>): string
  {
    if |ms| == 0 then []
    else if |ms| == 1 then MemberText(ms[0])
    else MemberText(ms[0]) + [','] + MembersText(ms[1..])
  }

  /** JSON.stringify without indentation. */
  function Stringify(v: Value): string
  {
    match v
    case Atom(s) => ScalarText(s)
    case Object(ms) => ['{'] + MembersText(ms) + ['}']
  }

  // ---------------------------------------------------------------- reading
  // Each reader consumes a prefix of its input and returns what it read and
  // the rest of the input, which is always strictly shorter.

  /** Value of four hexadecimal digits, as in a \uXXXX escape. */
  function Hex4(h: string): (r: Option<nat>)
    requires |h| == 4
    ensures r.Some? ==> r.value < 0x1_0000
  {
    match (HexValue(h[0]), HexValue(h[1]), HexValue(h[2]), HexValue(h[3]))
    case (Some(a), Some(b), Some(c), Some(d)) => Some(((a * 16 + b) * 16 + c) * 16 + d)
    case _ => None
  }

  /** Reads the escape sequence that follows a backslash in a string literal. */
  function Unescape(s: string): (r: Option<(char, string)>)
    ensures r.Some? ==> |r.value.1| < |s|
  {
    if s == [] then None
    else if s[0] == '"' then Some(('"', s[1..]))
    else if s[0] == '\\' then Some(('\\', s[1..]))
    else if s[0] == '/' then Some(('/', s[1..]))
    else if s[0] == 'b' then Some((Backspace, s[1..]))
    else if s[0] == 'f' then Some((FormFeed, s[1..]))
    else if s[0] == 'n' then Some(('\n', s[1..]))
    else if s[0] == 'r' then Some(('\r', s[1..]))
    else if s[0] == 't' then Some(('\t', s[1..]))
    else if s[0] == 'u' && |s| >= 5 then
      match Hex4(s[1..5])
      case Some(v) => if IsScalarValue(v) then Some((v as char, s[5..])) else None
      case None => None
    else None
  }

  /** Reads the characters of a string literal up to and including its closing quote. */
  function ParseChars(s: string): (r: Option<(string, string)>)
    ensures r.Some? ==> |r.value.1| < |s|
    decreases |s|
  {
    if s == [] then None
    else if s[0] == '"' then Some(([], s[1..]))
    else if s[0] == '\\' then
      match Unescape(s[1..])
      case None => None
      case Some((c, rest)) => Prepend(c, ParseChars(rest))
    else if (s[0] as int) < 0x20 then None
    else Prepend(s[0], ParseChars(s[1..]))
  }

  function Prepend(c: char, r: Option<(string, string)>): Option<(string, string)>
  {
    match r
    case None => None
    case Some((t, rest)) => Some(([c] + t, rest))
  }

  function ParseString(s: string): (r: Option<(string, string)>)
    ensures r.Some? ==> |r.value.1| < |s|
  {
    if s != [] && s[0] == '"' then ParseChars(s[1..]) else None
  }

  /** The longest prefix of s made of decimal digits. */
  function DigitSpan(s: string): (d: string)
    ensures |d| <= |s| && d == s[..|d|] && AllDigits(d)
    ensures |d| < |s| ==> !IsDigit(s[|d|])
  {
    if s != [] && IsDigit(s[0]) then [s[0]] + DigitSpan(s[1..]) else []
  }

  function DigitsValue(d: string): nat
    requires AllDigits(d)
  {
    if d == [] then 0 else DigitsValue(d[..|d| - 1]) * 10 + (d[|d| - 1] as int - '0' as int)
  }

  /** Reads a non-negative integer; a leading zero is only allowed on "0" itself. */
  function ParseNumber(s: string): (r: Option<(nat, string)>)
    ensures r.Some? ==> |r.value.1| < |s|
  {
    var d := DigitSpan(s);
    if d == [] || (|d| > 1 && d[0] == '0') then None
    else Some((DigitsValue(d), s[|d|..]))
  }

  function ParseScalar(s: string): (r: Option<(Scalar, string)>)
    ensures r.Some? ==> |r.value.1| < |s|
  {
    if s == [] then None
    else if s[0] == '"' then
      match ParseString(s)
      case None => None
      case Some((t, rest)) => Some((Str(t), rest))
    else if IsDigit(s[0]) then
      match ParseNumber(s)
      case None => None
      case Some((n, rest)) => Some((Num(n), rest))
    else if |s| >= 4 && s[0] == 't' && s[1] == 'r' && s[2] == 'u' && s[3] == 'e' then
      Some((Bool(true), s[4..]))
    else if |s| >= 5 && s[0] == 'f' && s[1] == 'a' && s[2] == 'l' && s[3] == 's' && s[4] == 'e' then
      Some((Bool(false), s[5..]))
    else if |s| >= 4 && s[0] == 'n' && s[1] == 'u' && s[2] == 'l' && s[3] == 'l' then
      Some((Null, s[4..]))
    else None
  }

  function ParseMember(s: string): (r: Option<(Member, string)>)
    ensures r.Some? ==> |r.value.1| < |s|
  {
    match ParseString(s)
    case None => None
    case Some((key, rest)) =>
      if rest != [] && rest[0] == ':' then
        match ParseScalar(rest[1..])
        case None => None
        case Some((v, after)) => Some((Member(key, v), after))
      else None
  }

  /** Reads the members of an object after its opening brace, through its closing brace. */
  function ParseMembers(s: string): (r: Option<(seq<Member>, string)>)
    ensures r.Some? ==> |r.value.1| < |s| && |r.value.0| >= 1
    decreases |s|
  {
    match ParseMember(s)
    case None => None
    case Some((m, rest)) =>
      if rest != [] && rest[0] == ',' then
        match ParseMembers(rest[1..])
        case None => None
        case Some((ms, after)) => Some(([m] + ms, after))
      else if rest != [] && rest[0] == '}' then Some(([m], rest[1..]))
      else None
  }

  function ParseValue(s: string): (r: Option<(Value, string)>)
  {
    if s != [] && s[0] == '{' then
      if |s| >= 2 && s[1] == '}' then Some((Object([]), s[2..]))
      else
        match ParseMembers(s[1..])
        case None => None
        case Some((ms, rest)) => Some((Object(ms), rest))
    else
      match ParseScalar(s)
      case None => None
      case Some((v, rest)) => Some((Atom(v), rest))
  }

  /** JSON.parse: the whole text must be one document; None stands for the SyntaxError it throws. */
  function Parse(text: string): Option<Value>
  {
    match ParseValue(text)
    case Some((v, rest)) => if rest == [] then Some(v) else None
    case None => None
  }

  /** Position of the last member named key, or -1 when there is none. */
  function LastIndex(members: seq<Member>, key: string): (i: int)
    ensures -1 <= i < |members|
    ensures i >= 0 ==> members[i].key == key
    ensures forall j | i < j < |members| :: members[j].key != key
  {
    if members == [] then -1
    else if members[|members| - 1].key == key then |members| - 1
    else LastIndex(members[..|members| - 1], key)
  }

  /**
   * Property access on a parsed object: when a key occurs several times the
   * last occurrence wins, as with JSON.parse; None stands for undefined.
   */
  function Get(members: seq<Member>, key: string): Option<Scalar>
  {
    var i := LastIndex(members, key);
    if i < 0 then None else Some(members[i].value)
  }

  // ---------------------------------------------------------------- round trip

  lemma {:induction false} DigitsValueOfDigits(n: nat)
    ensures DigitsValue(Digits(n)) == n
  {
    if n >= 10 {
      var d := Digits(n / 10);
      assert Digits(n) == d + [DigitChar(n % 10)];
      assert (d + [DigitChar(n % 10)])[..|d|] == d;
      DigitsValueOfDigits(n / 10);
    }
  }

  lemma {:induction false} DigitSpanOf(d: string, rest: string)
    requires AllDigits(d)
    requires rest == [] || !IsDigit(rest[0])
    ensures DigitSpan(d + rest) == d
  {
    if d != [] {
      assert (d + rest)[1..] == d[1..] + rest;
      DigitSpanOf(d[1..], rest);
      assert [d[0]] + d[1..] == d;
    } else {
      assert d + rest == rest;
    }
  }

  lemma EscapedCharStep(c: char, tail: string)
    ensures ParseChars(EscapeChar(c) + tail) == Prepend(c, ParseChars(tail))
  {
    var s := EscapeChar(c) + tail;
    if c == '"' || c == '\\' || c == Backspace || c == FormFeed || c == '\n' || c == '\r' || c == '\t' {
      assert s[0] == '\\' && s[1..] == [EscapeChar(c)[1]] + tail;
      assert Unescape(s[1..]) == Some((c, tail));
    } else if (c as int) < 0x20 {
      var v := c as int;
      var h := ['0', '0', HexDigit(v / 16), HexDigit(v % 16)];
      assert s[0] == '\\' && s[1..] == ['u'] + h + tail;
      assert s[1..][1..5] == h;
      assert Hex4(h) == Some(v);
      assert Unescape(s[1..]) == Some((c, tail));
    } else {
      assert s[0] == c && s[1..] == tail;
    }
  }

  lemma {:induction false} EscapeRoundTrip(x: string, rest: string)
    ensures ParseChars(Escape(x) + ['"'] + rest) == Some((x, rest))
  {
    if x == [] {
      assert Escape(x) + ['"'] + rest == ['"'] + rest;
    } else {
      var tail := Escape(x[1..]) + ['"'] + rest;
      assert Escape(x) + ['"'] + rest == EscapeChar(x[0]) + tail;
      EscapedCharStep(x[0], tail);
      EscapeRoundTrip(x[1..], rest);
      assert [x[0]] + x[1..] == x;
    }
  }

  lemma QuoteRoundTrip(x: string, rest: string)
    ensures ParseString(Quote(x) + rest) == Some((x, rest))
  {
    var s := Quote(x) + rest;
    assert s[0] == '"' && s[1..] == Escape(x) + ['"'] + rest;
    EscapeRoundTrip(x, rest);
  }

  /** What may follow a value inside an object, or end the text. */
  predicate IsValueEnd(rest: string)
  {
    rest == [] || rest[0] == ',' || rest[0] == '}'
  }

  lemma ScalarRoundTrip(v: Scalar, rest: string)
    requires IsValueEnd(rest)
    ensures ParseScalar(ScalarText(v) + rest) == Some((v, rest))
  {
    var s := ScalarText(v) + rest;
    match v
    case Str(t) =>
      QuoteRoundTrip(t, rest);
    case Num(n) =>
      var d := Digits(n);
      DigitSpanOf(d, rest);
      DigitsValueOfDigits(n);
      assert s[0] == d[0] && s[|d|..] == rest;
    case Bool(b) =>
      if b {
        assert s[4..] == rest;
      } else {
        assert s[5..] == rest;
      }
    case Null =>
      assert s[4..] == rest;
  }

  lemma MemberStep(s: string, key: string, after: string, v: Scalar, rest: string)
    requires ParseString(s) == Some((key, [':'] + after))
    requires ParseScalar(after) == Some((v, rest))
    ensures ParseMember(s) == Some((Member(key, v), rest))
  {
    assert ([':'] + after)[1..] == after;
  }

  lemma MemberRoundTrip(m: Member, rest: string)
    requires IsValueEnd(rest)
    ensures ParseMember(MemberText(m) + rest) == Some((m, rest))
  {
    var after := ScalarText(m.value) + rest;
    assert MemberText(m) + rest == Quote(m.key) + ([':'] + after);
    QuoteRoundTrip(m.key, [':'] + after);
    ScalarRoundTrip(m.value, rest);
    MemberStep(Quote(m.key) + ([':'] + after), m.key, after, m.value, rest);
  }

  lemma MembersLast(s: string, m: Member, rest: string)
    requires ParseMember(s) == Some((m, ['}'] + rest))
    ensures ParseMembers(s) == Some(([m], rest))
  {
    assert (['}'] + rest)[1..] == rest;
  }

  lemma MembersNext(s: string, m: Member, tail: string)
    requires ParseMember(s) == Some((m, [','] + tail))
    ensures ParseMembers(s) ==
      match ParseMembers(tail)
      case None => None
      case Some((ms, after)) => Some(([m] + ms, after))
  {
    assert ([','] + tail)[1..] == tail;
  }

  lemma MembersTextCons(ms: seq<Member>)
    requires |ms| >= 2
    ensures MembersText(ms) == MemberText(ms[0]) + [','] + MembersText(ms[1..])
  {
  }

  lemma LastMemberRoundTrip(m: Member, rest: string)
    ensures ParseMembers(MembersText([m]) + ['}'] + rest) == Some(([m], rest))
  {
    var tail := ['}'] + rest;
    var s := MemberText(m) + tail;
    assert MembersText([m]) + ['}'] + rest == s;
    MemberRoundTrip(m, tail);
    MembersLast(s, m, rest);
  }

  lemma MembersTextSplit(ms: seq<Member>, rest: string)
    requires |ms| >= 2
    ensures MembersText(ms) + ['}'] + rest == MemberText(ms[0]) + ([','] + (MembersText(ms[1..]) + ['}'] + rest))
  {
    MembersTextCons(ms);
    ConcatRegroup(MemberText(ms[0]), [','], MembersText(ms[1..]), ['}'], rest);
  }

  lemma ConcatRegroup(a: string, b: string, c: string, d: string, e: string)
    ensures a + b + c + d + e == a + (b + (c + d + e))
  {
  }

  lemma {:induction false} MembersRoundTrip(ms: seq<Member>, rest: string)
    requires |ms| >= 1
    ensures ParseMembers(MembersText(ms) + ['}'] + rest) == Some((ms, rest))
  {
    if |ms| == 1 {
      LastMemberRoundTrip(ms[0], rest);
      assert ms == [ms[0]];
    } else {
      var m := ms[0];
      var tail := MembersText(ms[1..]) + ['}'] + rest;
      MembersTextSplit(ms, rest);
      MemberRoundTrip(m, [','] + tail);
      MembersNext(MemberText(m) + ([','] + tail), m, tail);
      MembersRoundTrip(ms[1..], rest);
      assert [m] + ms[1..] == ms;
    }
  }

  lemma ScalarTextStart(v: Scalar)
    ensures |ScalarText(v)| >= 1 && ScalarText(v)[0] != '{'
  {
    match v
    case Str(t) =>
    case Num(n) =>
    case Bool(b) =>
    case Null =>
  }

  lemma AtomRoundTrip(v: Scalar)
    ensures Parse(ScalarText(v)) == Some(Atom(v))
  {
    ScalarRoundTrip(v, []);
    assert ScalarText(v) + [] == ScalarText(v);
    ScalarTextStart(v);
  }

  lemma MembersTextStart(ms: seq<Member>)
    requires ms != []
    ensures |MembersText(ms)| >= 1 && MembersText(ms)[0] == '"'
  {
    if |ms| >= 2 {
      MembersTextCons(ms);
    }
  }

  lemma ObjectStep(s: string, ms: seq<Member>)
    requires |s| >= 2 && s[0] == '{' && s[1] != '}'
    requires ParseMembers(s[1..]) == Some((ms, []))
    ensures Parse(s) == Some(Object(ms))
  {
  }

  lemma ObjectRoundTrip(ms: seq<Member>)
    ensures Parse(['{'] + MembersText(ms) + ['}']) == Some(Object(ms))
  {
    if ms == [] {
      assert ['{'] + MembersText(ms) + ['}'] == ['{', '}'];
    } else {
      var body := MembersText(ms) + ['}'];
      var s := ['{'] + body;
      assert ['{'] + MembersText(ms) + ['}'] == s;
      MembersTextStart(ms);
      assert s[1] == '"' && s[1..] == body;
      assert body == MembersText(ms) + ['}'] + [];
      MembersRoundTrip(ms, []);
      ObjectStep(s, ms);
    }
  }

  /** JSON.parse(JSON.stringify(v)) gives v back. */
  lemma ParseStringify(v: Value)
    ensures Parse(Stringify(v)) == Some(v)
  {
    match v
    case Atom(sc) => AtomRoundTrip(sc);
    case Object(ms) => ObjectRoundTrip(ms);
  }
}
