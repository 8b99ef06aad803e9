/** The Base Protocol layer of the debug client: `Content-Length: N\r\n\r\n<body>` frames cut out
    of a TCP stream that arrives in arbitrary chunks. */
module Framing {
  import opened Basics

  const HEADER: Bytes := "Content-Length: "
  const HEADER_LENGTH := 16
  const SEPARATOR: Bytes := "\r\n\r\n"
  const SEPARATOR_LENGTH := 4
  const SIZE_LIMIT := 0x1_0000_0000_0000_0000

  // ---------------------------------------------------------------- searching

  /** `pattern` stands at position `i` of `buffer`. */
  predicate At(buffer: Bytes, pattern: Bytes, i: nat) {
    i + |pattern| <= |buffer| && buffer[i..i + |pattern|] == pattern
  }

  /** The first occurrence at or after `from`; `None` is `npos`. */
  function Find(buffer: Bytes, pattern: Bytes, from: nat): (r: Option<nat>)
    ensures r.Some? ==> from <= r.value && At(buffer, pattern, r.value)
    ensures r.Some? ==> forall i :: from <= i < r.value ==> !At(buffer, pattern, i)
    ensures r.None? ==> forall i :: from <= i ==> !At(buffer, pattern, i)
    decreases |buffer| - from
  {
    if from + |pattern| > |buffer| then None
    else if At(buffer, pattern, from) then Some(from)
    else Find(buffer, pattern, from + 1)
  }

  /** The search result is settled by the first position that is not ruled out. */
  lemma FindSettled(buffer: Bytes, pattern: Bytes, from: nat, at: nat)
    requires from <= at && forall i: nat :: from <= i < at ==> !At(buffer, pattern, i)
    ensures At(buffer, pattern, at) ==> Find(buffer, pattern, from) == Some(at)
    ensures |buffer| < at + |pattern| ==> Find(buffer, pattern, from) == None
  {}

  // ---------------------------------------------------------------- decimals

  predicate IsDigit(c: char) { '0' <= c <= '9' }

  predicate IsSpace(c: char) { c == ' ' || '\t' <= c <= '\r' }

  /** `std::to_string` on an unsigned number. */
  function Digits(n: nat): (s: Bytes)
    ensures s != [] && forall c :: c in s ==> IsDigit(c)
  {
    if n < 10 then ['0' + n as char] else Digits(n / 10) + ['0' + (n % 10) as char]
  }

  function Value(digits: Bytes): nat
    requires forall c :: c in digits ==> IsDigit(c)
  {
    if digits == [] then 0
    else
      var last := digits[|digits| - 1];
      assert IsDigit(last);
      10 * Value(digits[..|digits| - 1]) + (last as int - '0' as int)
  }

  lemma {:induction false} ValueOfDigits(n: nat)
    ensures Value(Digits(n)) == n
  {
    var s := Digits(n);
    if n >= 10 {
      ValueOfDigits(n / 10);
      assert s[..|s| - 1] == Digits(n / 10);
    } else {
      assert s[..0] == [];
    }
  }

  function SkipSpace(s: Bytes): Bytes {
    if s != [] && IsSpace(s[0]) then SkipSpace(s[1..]) else s
  }

  function LeadingDigits(s: Bytes): (d: Bytes)
    ensures d <= s && forall c :: c in d ==> IsDigit(c)
  {
    if s != [] && IsDigit(s[0]) then [s[0]] + LeadingDigits(s[1..]) else []
  }

  datatype Numeral = Number(value: nat) | InvalidArgument | OutOfRange

  /** `std::stoull` in base ten: leading white space and one sign are accepted, the number ends at
      the first other character, a minus sign wraps around modulo 2^64. */
  function Stoull(text: Bytes): (r: Numeral)
    ensures r.Number? ==> r.value < SIZE_LIMIT
  {
    var t := SkipSpace(text);
    var unsigned := if t != [] && (t[0] == '-' || t[0] == '+') then t[1..] else t;
    var digits := LeadingDigits(unsigned);
    if digits == [] then InvalidArgument
    else if Value(digits) >= SIZE_LIMIT then OutOfRange
    else if t[0] == '-' then Number((SIZE_LIMIT - Value(digits)) % SIZE_LIMIT)
    else Number(Value(digits))
  }

  lemma {:induction false} LeadingDigitsOf(d: Bytes, rest: Bytes)
    requires forall c :: c in d ==> IsDigit(c)
    requires rest == [] || !IsDigit(rest[0])
    ensures LeadingDigits(d + rest) == d
  {
    if d == [] {
      assert d + rest == rest;
    } else {
      assert (d + rest)[1..] == d[1..] + rest;
      LeadingDigitsOf(d[1..], rest);
    }
  }

  /** Parsing what was printed gives the number back, whatever non-digit follows. */
  lemma StoullOfDigits(n: nat, rest: Bytes)
    requires n < SIZE_LIMIT
    requires rest == [] || !IsDigit(rest[0])
    ensures Stoull(Digits(n) + rest) == Number(n)
  {
    var s := Digits(n) + rest;
    assert IsDigit(Digits(n)[0]) && s[0] == Digits(n)[0];
    assert SkipSpace(s) == s;
    LeadingDigitsOf(Digits(n), rest);
    ValueOfDigits(n);
  }

  lemma {:induction false} SkipSpaceOf(spaces: Bytes, rest: Bytes)
    requires (forall c :: c in spaces ==> IsSpace(c)) && (rest == [] || !IsSpace(rest[0]))
    ensures SkipSpace(spaces + rest) == rest
  {
    if spaces == [] {
      assert spaces + rest == rest;
    } else {
      assert (spaces + rest)[1..] == spaces[1..] + rest;
      SkipSpaceOf(spaces[1..], rest);
    }
  }

  /** What any text is read as: white space, a sign, digits and the rest. */
  lemma StoullExactly(spaces: Bytes, sign: Bytes, digits: Bytes, rest: Bytes)
    requires (forall c :: c in spaces ==> IsSpace(c)) && (sign == "" || sign == "+" || sign == "-")
    requires (forall c :: c in digits ==> IsDigit(c)) && (rest == [] || !IsDigit(rest[0]))
    requires sign + digits == [] ==> rest == [] || !(IsSpace(rest[0]) || rest[0] == '+' || rest[0] == '-')
    ensures Stoull(spaces + (sign + (digits + rest))) ==
            if digits == [] then InvalidArgument
            else if Value(digits) >= SIZE_LIMIT then OutOfRange
            else if sign == "-" && Value(digits) > 0 then Number(SIZE_LIMIT - Value(digits))
            else Number(Value(digits))
  {
    var text := sign + (digits + rest);
    NoSpaceFirst(sign, digits, rest);
    hide *;
    SkipSpaceOf(spaces, text);
    LeadingDigitsOf(digits, rest);
    StoullSigned(spaces + text, sign, digits, rest);
  }

  lemma NoSpaceFirst(sign: Bytes, digits: Bytes, rest: Bytes)
    requires sign == "" || sign == "+" || sign == "-"
    requires forall c :: c in digits ==> IsDigit(c)
    requires sign + digits == [] ==> rest == [] || !IsSpace(rest[0])
    ensures var text := sign + (digits + rest); text == [] || !IsSpace(text[0])
  {
    if sign == "" && digits != [] {
      assert (sign + (digits + rest))[0] == digits[0] && digits[0] in digits;
    }
  }

  lemma StoullSigned(text: Bytes, sign: Bytes, digits: Bytes, rest: Bytes)
    requires sign == "" || sign == "+" || sign == "-"
    requires SkipSpace(text) == sign + (digits + rest) && LeadingDigits(digits + rest) == digits
    requires forall c :: c in digits ==> IsDigit(c)
    requires sign + digits == [] ==> rest == [] || !(rest[0] == '+' || rest[0] == '-')
    ensures Stoull(text) ==
            if digits == [] then InvalidArgument
            else if Value(digits) >= SIZE_LIMIT then OutOfRange
            else if sign == "-" && Value(digits) > 0 then Number(SIZE_LIMIT - Value(digits))
            else Number(Value(digits))
  {
    var t := SkipSpace(text);
    SignedText(sign, digits, rest);
    WrapsAround(Value(digits));
    hide SkipSpace, LeadingDigits, Value;
    var unsigned := if t != [] && (t[0] == '-' || t[0] == '+') then t[1..] else t;
    assert unsigned == digits + rest;
  }

  lemma SignedText(sign: Bytes, digits: Bytes, rest: Bytes)
    requires sign == "" || sign == "+" || sign == "-"
    requires forall c :: c in digits ==> IsDigit(c)
    requires sign + digits == [] ==> rest == [] || !(rest[0] == '+' || rest[0] == '-')
    ensures var t := sign + (digits + rest);
            && (t != [] && (t[0] == '-' || t[0] == '+') <==> sign != "")
            && t[|sign|..] == digits + rest
            && (sign != "" ==> t[0] == sign[0])
  {
    var t := sign + (digits + rest);
    if sign == "" && digits != [] {
      assert t[0] == digits[0] && digits[0] in digits;
    }
  }

  lemma WrapsAround(n: nat)
    ensures n < SIZE_LIMIT ==> (SIZE_LIMIT - n) % SIZE_LIMIT == if n > 0 then SIZE_LIMIT - n else 0
  {}

  // ---------------------------------------------------------------- frames

  predicate Sized(body: Bytes) { |body| < SIZE_LIMIT }

  predicate AllSized(bodies: seq<Bytes>) { forall i :: 0 <= i < |bodies| ==> Sized(bodies[i]) }

  function Preamble(body: Bytes): Bytes { HEADER + Digits(|body|) + SEPARATOR }

  /** The frame sent for `body`. */
  function Frame(body: Bytes): Bytes { Preamble(body) + body }

  function Framed(bodies: seq<Bytes>): (parts: seq<Bytes>)
    ensures |parts| == |bodies| && forall i :: 0 <= i < |bodies| ==> parts[i] == Frame(bodies[i])
  {
    seq(|bodies|, i requires 0 <= i < |bodies| => Frame(bodies[i]))
  }

  /** The byte stream that carries `bodies`. */
  function Frames(bodies: seq<Bytes>): Bytes { Concat(Framed(bodies)) }

  lemma FramesTake(bodies: seq<Bytes>, m: nat)
    requires m < |bodies|
    ensures Frames(bodies[..m + 1]) == Frames(bodies[..m]) + Frame(bodies[m])
  {
    ConcatTake(Framed(bodies), m);
    assert Framed(bodies[..m]) == Framed(bodies)[..m];
    assert Framed(bodies[..m + 1]) == Framed(bodies)[..m + 1];
  }

  lemma FramesSplit(bodies: seq<Bytes>, m: nat)
    requires m <= |bodies|
    ensures Frames(bodies) == Frames(bodies[..m]) + Frames(bodies[m..])
  {
    ConcatSplit(Framed(bodies), m);
    assert Framed(bodies[..m]) == Framed(bodies)[..m];
    assert Framed(bodies[m..]) == Framed(bodies)[m..];
  }

  /** Cutting off more frames gives a longer prefix. */
  lemma {:induction false} FramesMonotone(bodies: seq<Bytes>, i: nat, j: nat)
    requires i <= j <= |bodies|
    ensures |Frames(bodies[..i])| <= |Frames(bodies[..j])|
    ensures i < j ==> |Frames(bodies[..i])| < |Frames(bodies[..j])|
    decreases j - i
  {
    if i < j {
      FramesTake(bodies, j - 1);
      FramesMonotone(bodies, i, j - 1);
    }
  }

  // ---------------------------------------------------------------- one frame seen through a growing buffer

  /** From `base` on, the buffer holds a prefix of the frame of `body` followed by `rest`. */
  ghost predicate Window(buffer: Bytes, base: nat, body: Bytes, rest: Bytes) {
    base <= |buffer| && buffer[base..] <= Frame(body) + rest
  }

  function SeparatorStart(base: nat, body: Bytes): nat { base + HEADER_LENGTH + |Digits(|body|)| }

  function BodyStart(base: nat, body: Bytes): nat { SeparatorStart(base, body) + SEPARATOR_LENGTH }

  lemma WindowChar(buffer: Bytes, base: nat, body: Bytes, rest: Bytes, i: nat)
    requires Window(buffer, base, body, rest) && base <= i < |buffer|
    ensures buffer[i] == (Frame(body) + rest)[i - base]
  {
    assert buffer[i] == buffer[base..][i - base];
  }

  lemma {:induction false} HeaderSeen(buffer: Bytes, base: nat, body: Bytes, rest: Bytes)
    requires Window(buffer, base, body, rest)
    ensures Find(buffer, HEADER, base) ==
            if |buffer| < base + HEADER_LENGTH then None else Some(base)
  {
    if |buffer| >= base + HEADER_LENGTH {
      var t := buffer[base..];
      assert t[..HEADER_LENGTH] == (Frame(body) + rest)[..HEADER_LENGTH] == HEADER;
      assert buffer[base..base + HEADER_LENGTH] == t[..HEADER_LENGTH];
      assert At(buffer, HEADER, base);
    }
  }

  lemma FrameDigit(body: Bytes, rest: Bytes, i: nat)
    requires i < |Digits(|body|)|
    ensures (Frame(body) + rest)[HEADER_LENGTH + i] == Digits(|body|)[i]
  {
    var d := Digits(|body|);
    assert Frame(body) + rest == HEADER + (d + (SEPARATOR + body + rest));
  }

  lemma FrameSeparator(body: Bytes, rest: Bytes)
    ensures At(Frame(body) + rest, SEPARATOR, SeparatorStart(0, body))
  {
    var front := HEADER + Digits(|body|);
    assert Frame(body) + rest == front + (SEPARATOR + (body + rest));
  }

  lemma DigitAt(n: nat, k: nat)
    requires k < |Digits(n)|
    ensures IsDigit(Digits(n)[k])
  {
    assert Digits(n)[k] in Digits(n);
  }

  lemma DigitSeen(buffer: Bytes, base: nat, body: Bytes, rest: Bytes, k: nat)
    requires Window(buffer, base, body, rest)
    requires k < |Digits(|body|)| && base + HEADER_LENGTH + k < |buffer|
    ensures buffer[base + HEADER_LENGTH + k] == Digits(|body|)[k]
    ensures IsDigit(buffer[base + HEADER_LENGTH + k])
  {
    WindowChar(buffer, base, body, rest, base + HEADER_LENGTH + k);
    FrameDigit(body, rest, k);
    DigitAt(|body|, k);
  }

  lemma NoSeparatorInDigits(buffer: Bytes, base: nat, body: Bytes, rest: Bytes, k: nat)
    requires Window(buffer, base, body, rest)
    requires k < |Digits(|body|)|
    ensures !At(buffer, SEPARATOR, base + HEADER_LENGTH + k)
  {
    var i := base + HEADER_LENGTH + k;
    if i < |buffer| {
      DigitSeen(buffer, base, body, rest, k);
      assert SEPARATOR[0] == '\r';
    }
  }

  lemma SeparatorSeen(buffer: Bytes, base: nat, body: Bytes, rest: Bytes)
    requires Window(buffer, base, body, rest)
    ensures Find(buffer, SEPARATOR, base + HEADER_LENGTH) ==
            if |buffer| < BodyStart(base, body) then None else Some(SeparatorStart(base, body))
  {
    var from, start := base + HEADER_LENGTH, SeparatorStart(base, body);
    forall i: nat | from <= i < start
      ensures !At(buffer, SEPARATOR, i)
    {
      NoSeparatorInDigits(buffer, base, body, rest, i - from);
    }
    FindSettled(buffer, SEPARATOR, from, start);
    if |buffer| >= BodyStart(base, body) {
      FrameSeparator(body, rest);
      WindowAt(buffer, base, Frame(body) + rest, SEPARATOR, start - base);
    }
  }

  lemma WindowAt(buffer: Bytes, base: nat, whole: Bytes, pattern: Bytes, i: nat)
    requires base <= |buffer| && buffer[base..] <= whole
    requires At(whole, pattern, i) && base + i + |pattern| <= |buffer|
    ensures At(buffer, pattern, base + i)
  {
    var t := buffer[base..];
    assert t[i..i + |pattern|] == whole[i..i + |pattern|];
    assert buffer[base + i..base + i + |pattern|] == t[i..i + |pattern|];
  }

  /** `std::string::substr`. */
  function Substr(s: Bytes, pos: nat, count: nat): Bytes
    requires pos <= |s|
  {
    if pos + count <= |s| then s[pos..pos + count] else s[pos..]
  }

  /** The number read between a header and a separator; the count passed to `substr` is the position
      of the separator, not the length of the field. */
  function ReadLength(buffer: Bytes, headerPos: nat, separatorPos: nat): Numeral
    requires headerPos + HEADER_LENGTH <= |buffer|
  {
    Stoull(Substr(buffer, headerPos + HEADER_LENGTH, separatorPos))
  }

  /** The length field is read correctly although the substring handed to the number parser
      runs past the separator. */
  lemma LengthSeen(buffer: Bytes, base: nat, body: Bytes, rest: Bytes)
    requires Window(buffer, base, body, rest) && Sized(body)
    requires BodyStart(base, body) <= |buffer|
    ensures ReadLength(buffer, base, SeparatorStart(base, body)) == Number(|body|)
  {
    var start := SeparatorStart(base, body);
    var from := base + HEADER_LENGTH;
    var text := Substr(buffer, from, start);
    var d := Digits(|body|);
    forall i | 0 <= i < |d| ensures text[i] == d[i] {
      DigitSeen(buffer, base, body, rest, i);
    }
    SeparatorSeen(buffer, base, body, rest);
    assert text[|d|] == buffer[start] == buffer[start..start + SEPARATOR_LENGTH][0];
    assert text == d + text[|d|..];
    StoullOfDigits(|body|, text[|d|..]);
  }

  lemma BodySeen(buffer: Bytes, base: nat, body: Bytes, rest: Bytes)
    requires Window(buffer, base, body, rest)
    requires base + |Frame(body)| <= |buffer|
    ensures BodyStart(base, body) + |body| == base + |Frame(body)|
    ensures buffer[BodyStart(base, body)..BodyStart(base, body) + |body|] == body
  {
    var whole := Frame(body) + rest;
    var t := buffer[base..];
    var from := |Preamble(body)|;
    assert whole[from..from + |body|] == body;
    assert t[from..from + |body|] == body;
    assert buffer[base + from..base + from + |body|] == body;
  }
}
