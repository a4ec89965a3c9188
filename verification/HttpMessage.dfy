/** Writing and reading HTTP/1.1 messages (src/provablyfine/cli/http.py). */
module HttpMessage {
  import opened Wrappers
  import opened Bytes
  import Sequences
  import opened Decimal
  import opened LetterCase

  /** An insertion-ordered dictionary. */
  datatype Header = Header(name: string, value: string)

  datatype Message = Message(startLine: string, headers: seq<Header>, body: seq<Byte>)

  datatype HttpError = ParseError | NotAscii | NumberTooLong

  const CRLF: seq<Byte> := [13, 10]

  // ---- Text ----

  predicate Ascii(s: string) {
    forall c :: c in s ==> c as int < 128
  }

  function AsBytes(s: string): (r: seq<Byte>)
    requires Ascii(s)
    ensures |r| == |s| && forall i :: 0 <= i < |s| ==> r[i] == s[i] as int
  {
    assert forall i :: 0 <= i < |s| ==> s[i] in s;
    seq<Byte>(|s|, i requires 0 <= i < |s| && s[i] as int < 128 => s[i] as int)
  }

  function DecodeAscii(b: seq<Byte>): (r: Option<string>)
    ensures r.None? <==> exists e :: e in b && e > 127
    ensures r.Some? ==> |r.value| == |b| && forall i :: 0 <= i < |b| ==> r.value[i] as int == b[i]
  {
    if forall e :: e in b ==> e < 128 then Some(seq(|b|, i requires 0 <= i < |b| => b[i] as char)) else None
  }

  lemma DecodeEncoded(s: string)
    requires Ascii(s)
    ensures DecodeAscii(AsBytes(s)) == Some(s)
  {
    var b := AsBytes(s);
    forall e | e in b ensures e < 128 {
      var i :| 0 <= i < |b| && b[i] == e;
      assert s[i] in s;
    }
    assert seq(|b|, i requires 0 <= i < |b| => b[i] as char) == s;
  }

  predicate NoCrlf(s: string) {
    forall i :: 0 <= i < |s| - 1 ==> !(s[i] == '\r' && s[i + 1] == '\n')
  }

  function FindCrlf(s: seq<Byte>): (r: Option<nat>)
    ensures r.Some? ==> r.value + 2 <= |s| && s[r.value] == 13 && s[r.value + 1] == 10
    ensures forall i :: 0 <= i < (if r.Some? then r.value else |s| - 1) ==> !(s[i] == 13 && s[i + 1] == 10)
  {
    if |s| < 2 then None
    else if s[0] == 13 && s[1] == 10 then Some(0)
    else match FindCrlf(s[1..])
         case None => None
         case Some(i) => Some(i + 1)
  }

  function Find(s: string, c: char): (r: Option<nat>)
    ensures r.Some? ==> r.value < |s| && s[r.value] == c && c !in s[..r.value]
    ensures r.None? <==> c !in s
  {
    if s == [] then None
    else if s[0] == c then Some(0)
    else
      assert forall i :: 0 < i <= |s| ==> s[..i] == [s[0]] + s[1..][..i - 1];
      match Find(s[1..], c)
      case None => None
      case Some(i) => Some(i + 1)
  }

  function LowerChar(c: char): char {
    if 'A' <= c <= 'Z' then c + 32 as char else c
  }

  function Lower(s: string): string {
    seq(|s|, i requires 0 <= i < |s| => LowerChar(s[i]))
  }

  predicate IsSpace(c: char) {
    '\t' <= c <= '\r' || 28 <= c as int <= 31 || c == ' '
  }

  function LStrip(s: string): string {
    if s != [] && IsSpace(s[0]) then LStrip(s[1..]) else s
  }

  function RStrip(s: string): string {
    if s != [] && IsSpace(s[|s| - 1]) then RStrip(s[..|s| - 1]) else s
  }

  /** `str.isspace`, over ASCII. */
  predicate White(c: char) {
    c as int in {9, 10, 11, 12, 13, 28, 29, 30, 31, 32}
  }

  /** Exactly the white space in front goes. */
  lemma {:induction false} LStripIs(s: string) returns (n: nat)
    ensures n <= |s| && LStrip(s) == s[n..] && (forall i :: 0 <= i < n ==> White(s[i])) && (n < |s| ==> !White(s[n]))
  {
    n := 0;
    if s != [] && IsSpace(s[0]) {
      n := LStripIs(s[1..]);
      assert s[1..][n..] == s[n + 1..];
      n := n + 1;
    }
  }

  /** Exactly the white space at the end goes. */
  lemma {:induction false} RStripIs(s: string) returns (n: nat)
    ensures n <= |s| && RStrip(s) == s[..n]
    ensures (forall i :: n <= i < |s| ==> White(s[i])) && (n > 0 ==> !White(s[n - 1]))
  {
    n := |s|;
    if s != [] && IsSpace(s[|s| - 1]) {
      n := RStripIs(s[..|s| - 1]);
      assert s[..|s| - 1][..n] == s[..n];
    } else {
      assert s[..|s|] == s;
    }
  }

  predicate SameNameButCase(a: string, b: string) {
    |a| == |b| && forall i :: 0 <= i < |a| ==> SameButCase(a[i], b[i])
  }

  lemma LowerIgnoresCase(a: string, b: string)
    ensures Lower(a) == Lower(b) <==> SameNameButCase(a, b)
  {
    if Lower(a) == Lower(b) {
      forall i | 0 <= i < |a| ensures SameButCase(a[i], b[i]) {
        assert Lower(a)[i] == Lower(b)[i];
      }
    }
  }

  // ---- Reading ----

  function SetHeader(hs: seq<Header>, name: string, value: string): seq<Header> {
    if hs == [] then [Header(name, value)]
    else if hs[0].name == name then [Header(name, value)] + hs[1..]
    else [hs[0]] + SetHeader(hs[1..], name, value)
  }

  function GetHeader(hs: seq<Header>, name: string): Option<string> {
    if hs == [] then None
    else if hs[0].name == name then Some(hs[0].value)
    else GetHeader(hs[1..], name)
  }

  /** The last value given for a name is the one that counts, and no other header is touched. */
  lemma {:induction false} GetAfterSet(hs: seq<Header>, name: string, value: string, other: string)
    ensures GetHeader(SetHeader(hs, name, value), other) == if other == name then Some(value) else GetHeader(hs, other)
  {
    if hs != [] && hs[0].name != name {
      GetAfterSet(hs[1..], name, value, other);
    }
  }

  /** A line without its end, and what follows it. */
  function TakeLine(s: seq<Byte>): (r: Result<(string, seq<Byte>), HttpError>)
    ensures r.Ok? ==> |r.value.1| + 2 <= |s|
  {
    match FindCrlf(s)
    case None => Err(ParseError)
    case Some(i) =>
      match DecodeAscii(s[..i])
      case None => Err(NotAscii)
      case Some(line) => Ok((line, s[i + 2..]))
  }

  function TakeHeaders(s: seq<Byte>, headers: seq<Header>): Result<(seq<Header>, seq<Byte>), HttpError>
    decreases |s|
  {
    match TakeLine(s)
    case Err(e) => Err(e)
    case Ok((line, rest)) =>
      if line == "" then Ok((headers, rest))
      else
        match Find(line, ':')
        case None => Err(ParseError)
        case Some(colon) =>
          TakeHeaders(rest, SetHeader(headers, Lower(line[..colon]), LStrip(line[colon + 1..])))
  }

  const CONTENT_LENGTH := "content-length"

  function TakeBody(s: seq<Byte>, headers: seq<Header>): Result<(seq<Byte>, seq<Byte>), HttpError> {
    match GetHeader(headers, CONTENT_LENGTH)
    case None => Ok(([], s))
    case Some(value) =>
      var length := RStrip(LStrip(value));
      if !AllDigits(length) then Err(ParseError)
      else if |length| > MAX_INT_DIGITS then Err(NumberTooLong)
      else if ParseDecimal(length) > |s| then Err(ParseError)
      else Ok((s[..ParseDecimal(length)], s[ParseDecimal(length)..]))
  }

  /** A message from the front of a stream, and the bytes that follow it. */
  function Parse(s: seq<Byte>): Result<(Message, seq<Byte>), HttpError> {
    match TakeLine(s)
    case Err(e) => Err(e)
    case Ok((startLine, afterStart)) =>
      match TakeHeaders(afterStart, [])
      case Err(e) => Err(e)
      case Ok((headers, afterHeaders)) =>
        match TakeBody(afterHeaders, headers)
        case Err(e) => Err(e)
        case Ok((body, rest)) => Ok((Message(startLine, headers, body), rest))
  }

  // ---- Writing ----

  function HeaderLine(h: Header): string {
    h.name + ": " + h.value
  }

  function HeaderLines(hs: seq<Header>): seq<string> {
    if hs == [] then [] else [HeaderLine(hs[0])] + HeaderLines(hs[1..])
  }

  /** Each line with its end. */
  function Ended(lines: seq<string>): seq<Byte>
    requires forall line :: line in lines ==> Ascii(line)
  {
    if lines == [] then [] else AsBytes(lines[0]) + CRLF + Ended(lines[1..])
  }

  /** The lines with CRLF between them. */
  function Joined(lines: seq<string>): seq<Byte>
    requires lines != [] && forall line :: line in lines ==> Ascii(line)
  {
    if |lines| == 1 then AsBytes(lines[0]) else AsBytes(lines[0]) + CRLF + Joined(lines[1..])
  }

  function Lines(m: Message): seq<string> {
    [m.startLine] + HeaderLines(m.headers) + [""]
  }

  predicate AllAscii(lines: seq<string>) {
    forall line :: line in lines ==> Ascii(line)
  }

  /** None is Python's UnicodeEncodeError. */
  function Serialized(m: Message): Option<seq<Byte>> {
    if AllAscii(Lines(m)) then Some(Ended(Lines(m)) + m.body) else None
  }

  lemma {:induction false} JoinedIsEnded(lines: seq<string>)
    requires AllAscii(lines)
    ensures Joined(lines + [""]) == Ended(lines)
  {
    if lines == [] {
      assert lines + [""] == [""];
    } else {
      assert (lines + [""])[1..] == lines[1..] + [""];
      JoinedIsEnded(lines[1..]);
    }
  }

  // ---- Round trips ----

  predicate Distinct(hs: seq<Header>) {
    forall i, j :: 0 <= i < j < |hs| ==> hs[i].name != hs[j].name
  }

  predicate HeaderFits(h: Header) {
    && Ascii(HeaderLine(h)) && NoCrlf(HeaderLine(h))
    && ':' !in h.name && Lower(h.name) == h.name
    && LStrip(h.value) == h.value
  }

  /** The start line and the headers can be told apart again. */
  predicate HeadFits(m: Message) {
    && Ascii(m.startLine) && NoCrlf(m.startLine)
    && Distinct(m.headers) && forall h :: h in m.headers ==> HeaderFits(h)
  }

  /** The content length is that of the body, or there is neither. */
  predicate BodyFits(m: Message) {
    match GetHeader(m.headers, CONTENT_LENGTH)
    case None => m.body == []
    case Some(value) =>
      var length := RStrip(LStrip(value));
      AllDigits(length) && |length| <= MAX_INT_DIGITS && ParseDecimal(length) == |m.body|
  }

  lemma {:induction false} FindCrlfAfter(line: string, rest: seq<Byte>)
    requires Ascii(line) && NoCrlf(line)
    ensures FindCrlf(AsBytes(line) + CRLF + rest) == Some(|line|)
  {
    var s := AsBytes(line) + CRLF + rest;
    if line != [] {
      var tail := line[1..];
      assert forall c :: c in tail ==> c in line;
      forall i | 0 <= i < |tail| - 1 ensures !(tail[i] == '\r' && tail[i + 1] == '\n') {
        assert tail[i] == line[i + 1] && tail[i + 1] == line[i + 1 + 1];
      }
      FindCrlfAfter(tail, rest);
      assert s[1..] == AsBytes(tail) + CRLF + rest;
    }
  }

  lemma TakeWrittenLine(line: string, rest: seq<Byte>)
    requires Ascii(line) && NoCrlf(line)
    ensures TakeLine(AsBytes(line) + CRLF + rest) == Ok((line, rest))
  {
    var s := AsBytes(line) + CRLF + rest;
    FindCrlfAfter(line, rest);
    DecodeEncoded(line);
    assert s[..|line|] == AsBytes(line);
    assert s[|line| + 2..] == rest;
  }

  lemma {:induction false} SetNewHeader(hs: seq<Header>, h: Header)
    requires forall e :: e in hs ==> e.name != h.name
    ensures SetHeader(hs, h.name, h.value) == hs + [h]
  {
    if hs != [] {
      assert hs[0] in hs;
      assert forall e :: e in hs[1..] ==> e in hs;
      SetNewHeader(hs[1..], h);
    }
  }

  lemma {:induction false} FindAfter(a: string, c: char, rest: string)
    requires c !in a
    ensures Find(a + [c] + rest, c) == Some(|a|)
  {
    if a != [] {
      assert a[0] in a;
      assert (a + [c] + rest)[1..] == a[1..] + [c] + rest;
      FindAfter(a[1..], c, rest);
    }
  }

  lemma {:induction false} FindWithin(a: string, c: char, rest: string)
    requires c in a
    ensures Find(a + rest, c) == Find(a, c) && Find(a, c).Some? && Find(a, c).value < |a|
  {
    if a[0] != c {
      assert (a + rest)[1..] == a[1..] + rest;
      FindWithin(a[1..], c, rest);
    }
  }

  lemma HeaderLineSplits(h: Header)
    requires HeaderFits(h)
    ensures var line := HeaderLine(h);
            line != "" && Find(line, ':') == Some(|h.name|) &&
            Lower(line[..|h.name|]) == h.name && LStrip(line[|h.name| + 1..]) == h.value
  {
    var line := HeaderLine(h);
    assert line[..|h.name|] == h.name;
    assert line == h.name + [':'] + (" " + h.value);
    FindAfter(h.name, ':', " " + h.value);
    assert line[|h.name| + 1..] == " " + h.value;
    assert (" " + h.value)[1..] == h.value;
  }

  lemma {:induction false} HeaderLinesAreAscii(hs: seq<Header>)
    requires forall h :: h in hs ==> HeaderFits(h)
    ensures AllAscii(HeaderLines(hs))
  {
    if hs != [] {
      assert hs[0] in hs;
      assert forall h :: h in hs[1..] ==> h in hs;
      HeaderLinesAreAscii(hs[1..]);
    }
  }

  lemma TakeWrittenHeader(h: Header, before: seq<Header>, rest: seq<Byte>)
    requires HeaderFits(h) && forall e :: e in before ==> e.name != h.name
    ensures TakeHeaders(AsBytes(HeaderLine(h)) + CRLF + rest, before) == TakeHeaders(rest, before + [h])
  {
    TakeWrittenLine(HeaderLine(h), rest);
    HeaderLineSplits(h);
    SetNewHeader(before, h);
  }

  lemma TakeWrittenEnd(before: seq<Header>, rest: seq<Byte>)
    ensures AllAscii([""]) && TakeHeaders(Ended([""]) + rest, before) == Ok((before, rest))
  {
    assert Ended([""][1..]) == [];
    assert Ended([""]) + rest == AsBytes("") + CRLF + rest;
    TakeWrittenLine("", rest);
  }

  lemma {:induction false} TakeWrittenHeaders(hs: seq<Header>, before: seq<Header>, rest: seq<Byte>)
    requires forall h :: h in hs ==> HeaderFits(h)
    requires Distinct(hs) && forall e, h :: e in before && h in hs ==> e.name != h.name
    ensures AllAscii(HeaderLines(hs) + [""])
    ensures TakeHeaders(Ended(HeaderLines(hs) + [""]) + rest, before) == Ok((before + hs, rest))
    decreases |hs|
  {
    HeaderLinesAreAscii(hs);
    if hs == [] {
      assert HeaderLines(hs) + [""] == [""];
      assert before + hs == before;
      TakeWrittenEnd(before, rest);
    } else {
      var h, lines := hs[0], HeaderLines(hs[1..]) + [""];
      assert h in hs && forall e :: e in hs[1..] ==> e in hs;
      assert before + [h] + hs[1..] == before + hs;
      OthersAreNamedDifferently(hs);
      TakeWrittenHeaders(hs[1..], before + [h], rest);
      assert HeaderLines(hs) + [""] == [HeaderLine(h)] + lines;
      EndedSplits(HeaderLine(h), lines, rest);
      TakeWrittenHeader(h, before, Ended(lines) + rest);
    }
  }

  lemma OthersAreNamedDifferently(hs: seq<Header>)
    requires hs != [] && Distinct(hs)
    ensures Distinct(hs[1..]) && forall h :: h in hs[1..] ==> h.name != hs[0].name
  {
  }

  lemma EndedSplits(line: string, lines: seq<string>, rest: seq<Byte>)
    requires Ascii(line) && AllAscii(lines)
    ensures Ended([line] + lines) + rest == AsBytes(line) + CRLF + (Ended(lines) + rest)
  {
    assert ([line] + lines)[1..] == lines;
  }

  lemma SerializedForm(m: Message)
    requires HeadFits(m)
    ensures var lines := HeaderLines(m.headers) + [""];
            && AllAscii(lines) && Serialized(m).Some?
            && Serialized(m).value == AsBytes(m.startLine) + CRLF + Ended(lines) + m.body
  {
    HeaderLinesAreAscii(m.headers);
    var lines := HeaderLines(m.headers) + [""];
    assert Lines(m) == [m.startLine] + lines && Lines(m)[1..] == lines;
  }

  lemma WrittenHeadReads(m: Message, rest: seq<Byte>)
    requires HeadFits(m)
    ensures Serialized(m).Some?
    ensures TakeLine(Serialized(m).value + rest).Ok?
    ensures var (startLine, after) := TakeLine(Serialized(m).value + rest).value;
            startLine == m.startLine && TakeHeaders(after, []) == Ok((m.headers, m.body + rest))
  {
    SerializedForm(m);
    var written := Ended(HeaderLines(m.headers) + [""]);
    assert [] + m.headers == m.headers;
    TakeWrittenHeaders(m.headers, [], m.body + rest);
    var start := AsBytes(m.startLine) + CRLF;
    Sequences.ConcatIsAssociative(start + written, m.body, rest);
    Sequences.ConcatIsAssociative(start, written, m.body + rest);
    TakeWrittenLine(m.startLine, written + (m.body + rest));
  }

  /** A message whose head can be told apart reads back as it was written, and leaves what follows it alone,
      exactly when its content length is right. */
  lemma MessageRoundTripIff(m: Message, rest: seq<Byte>)
    requires HeadFits(m)
    ensures Serialized(m).Some?
    ensures Parse(Serialized(m).value + rest) == Ok((m, rest)) <==> BodyFits(m)
  {
    WrittenHeadReads(m, rest);
    BodyRoundTripIff(m, rest);
  }

  lemma BodyRoundTripIff(m: Message, rest: seq<Byte>)
    ensures TakeBody(m.body + rest, m.headers) == Ok((m.body, rest)) <==> BodyFits(m)
  {
    if m.body == [] {
      assert m.body + rest == rest;
    }
    assert (m.body + rest)[..|m.body|] == m.body;
    assert (m.body + rest)[|m.body|..] == rest;
    if TakeBody(m.body + rest, m.headers) == Ok((m.body, rest)) && GetHeader(m.headers, CONTENT_LENGTH).None? {
      assert |m.body + rest| == |rest|;
    }
  }

  // ---- Headers as a peer may write them ----

  /** A line of a head: a name in letters of any case, and what follows its colon. */
  datatype Raw = Raw(name: string, text: string)

  function RawLine(raw: Raw): string {
    raw.name + ":" + raw.text
  }

  function RawLines(raws: seq<Raw>): seq<string> {
    if raws == [] then [] else [RawLine(raws[0])] + RawLines(raws[1..])
  }

  predicate RawFits(raw: Raw) {
    ':' !in raw.name && Ascii(RawLine(raw)) && NoCrlf(RawLine(raw))
  }

  /** What a reader makes of these lines: names in lower case, the last value for each, without the space in front. */
  function SetAll(before: seq<Header>, raws: seq<Raw>): seq<Header>
    decreases |raws|
  {
    if raws == [] then before
    else SetAll(SetHeader(before, Lower(raws[0].name), LStrip(raws[0].text)), raws[1..])
  }

  lemma TakeRawHeader(raw: Raw, before: seq<Header>, rest: seq<Byte>)
    requires RawFits(raw)
    ensures TakeHeaders(AsBytes(RawLine(raw)) + CRLF + rest, before) ==
            TakeHeaders(rest, SetHeader(before, Lower(raw.name), LStrip(raw.text)))
  {
    var line := RawLine(raw);
    TakeWrittenLine(line, rest);
    assert line == raw.name + [':'] + raw.text;
    FindAfter(raw.name, ':', raw.text);
    assert line[..|raw.name|] == raw.name && line[|raw.name| + 1..] == raw.text;
  }

  lemma {:induction false} RawLinesAreAscii(raws: seq<Raw>, last: string)
    requires (forall raw :: raw in raws ==> RawFits(raw)) && Ascii(last)
    ensures AllAscii(RawLines(raws) + [last])
  {
    if raws != [] {
      assert raws[0] in raws && forall e :: e in raws[1..] ==> e in raws;
      RawLinesAreAscii(raws[1..], last);
    }
  }

  lemma RawLinesSplit(raws: seq<Raw>, last: string, rest: seq<Byte>)
    requires raws != [] && (forall raw :: raw in raws ==> RawFits(raw)) && Ascii(last)
    ensures AllAscii(RawLines(raws) + [last]) && AllAscii(RawLines(raws[1..]) + [last]) && RawFits(raws[0])
    ensures forall raw :: raw in raws[1..] ==> RawFits(raw)
    ensures Ended(RawLines(raws) + [last]) + rest ==
            AsBytes(RawLine(raws[0])) + CRLF + (Ended(RawLines(raws[1..]) + [last]) + rest)
  {
    assert raws[0] in raws && forall e :: e in raws[1..] ==> e in raws;
    RawLinesAreAscii(raws, last);
    RawLinesAreAscii(raws[1..], last);
    assert RawLines(raws) + [last] == [RawLine(raws[0])] + (RawLines(raws[1..]) + [last]);
    EndedSplits(RawLine(raws[0]), RawLines(raws[1..]) + [last], rest);
  }

  lemma {:induction false} TakeRawHeaders(raws: seq<Raw>, before: seq<Header>, rest: seq<Byte>)
    requires forall raw :: raw in raws ==> RawFits(raw)
    ensures AllAscii(RawLines(raws) + [""])
    ensures TakeHeaders(Ended(RawLines(raws) + [""]) + rest, before) == Ok((SetAll(before, raws), rest))
    decreases |raws|
  {
    if raws == [] {
      assert RawLines(raws) + [""] == [""];
      TakeWrittenEnd(before, rest);
    } else {
      RawLinesSplit(raws, "", rest);
      TakeRawHeader(raws[0], before, Ended(RawLines(raws[1..]) + [""]) + rest);
      TakeRawHeaders(raws[1..], SetHeader(before, Lower(raws[0].name), LStrip(raws[0].text)), rest);
    }
  }

  ghost predicate SameButCaseOfNames(raws: seq<Raw>, others: seq<Raw>) {
    |raws| == |others| &&
    forall i :: 0 <= i < |raws| ==> SameNameButCase(raws[i].name, others[i].name) && raws[i].text == others[i].text
  }

  lemma {:induction false} SetAllIgnoresCase(before: seq<Header>, raws: seq<Raw>, others: seq<Raw>)
    requires SameButCaseOfNames(raws, others)
    ensures SetAll(before, raws) == SetAll(before, others)
    decreases |raws|
  {
    if raws != [] {
      LowerIgnoresCase(raws[0].name, others[0].name);
      SetAllIgnoresCase(SetHeader(before, Lower(raws[0].name), LStrip(raws[0].text)), raws[1..], others[1..]);
    }
  }

  function HeadBytes(startLine: string, raws: seq<Raw>): seq<Byte>
    requires Ascii(startLine) && AllAscii(RawLines(raws) + [""])
  {
    AsBytes(startLine) + CRLF + Ended(RawLines(raws) + [""])
  }

  /** A message is read from such a head and the bytes after it: the body is what the content length announces. */
  lemma RawHeadReads(startLine: string, raws: seq<Raw>, rest: seq<Byte>)
    requires Ascii(startLine) && NoCrlf(startLine) && forall raw :: raw in raws ==> RawFits(raw)
    ensures AllAscii(RawLines(raws) + [""])
    ensures Parse(HeadBytes(startLine, raws) + rest) ==
            match TakeBody(rest, SetAll([], raws))
            case Err(e) => Err(e)
            case Ok((body, left)) => Ok((Message(startLine, SetAll([], raws), body), left))
  {
    TakeRawHeaders(raws, [], rest);
    var lines := Ended(RawLines(raws) + [""]);
    Sequences.ConcatIsAssociative(AsBytes(startLine) + CRLF, lines, rest);
    TakeWrittenLine(startLine, lines + rest);
  }

  /** In which case header names are written makes no difference to the reader. */
  lemma CaseOfNamesDoesNotMatter(startLine: string, raws: seq<Raw>, others: seq<Raw>, rest: seq<Byte>)
    requires Ascii(startLine) && NoCrlf(startLine) && SameButCaseOfNames(raws, others)
    requires (forall raw :: raw in raws ==> RawFits(raw)) && (forall raw :: raw in others ==> RawFits(raw))
    ensures AllAscii(RawLines(raws) + [""]) && AllAscii(RawLines(others) + [""])
    ensures Parse(HeadBytes(startLine, raws) + rest) == Parse(HeadBytes(startLine, others) + rest)
  {
    RawHeadReads(startLine, raws, rest);
    RawHeadReads(startLine, others, rest);
    SetAllIgnoresCase([], raws, others);
  }

  /** A content length may have white space around it. It announces that many bytes, and what follows them is left. */
  lemma BodyIsAsAnnounced(s: seq<Byte>, headers: seq<Header>, before: string, digits: string, after: string)
    requires GetHeader(headers, "content-length") == Some(before + digits + after)
    requires (forall c :: c in before || c in after ==> White(c)) && AllDigits(digits)
    ensures TakeBody(s, headers) ==
            if |digits| > 4300 then Err(NumberTooLong)
            else if ParseDecimal(digits) > |s| then Err(ParseError)
            else Ok((s[..ParseDecimal(digits)], s[ParseDecimal(digits)..]))
  {
    assert digits[0] in digits && digits[|digits| - 1] in digits && (digits + after)[0] == digits[0];
    LStripDrops(before, digits + after);
    assert before + digits + after == before + (digits + after);
    RStripDrops(digits, after);
  }

  lemma {:induction false} LStripDrops(before: string, s: string)
    requires forall c :: c in before ==> White(c)
    requires s != [] && !White(s[0])
    ensures LStrip(before + s) == s
  {
    if before == [] {
      assert before + s == s;
    } else {
      assert before[0] in before && (before + s)[1..] == before[1..] + s;
      LStripDrops(before[1..], s);
    }
  }

  lemma {:induction false} RStripDrops(s: string, after: string)
    requires forall c :: c in after ==> White(c)
    requires s != [] && !White(s[|s| - 1])
    ensures RStrip(s + after) == s
  {
    if after == [] {
      assert s + after == s;
    } else {
      assert after[|after| - 1] in after && (s + after)[..|s + after| - 1] == s + after[..|after| - 1];
      RStripDrops(s, after[..|after| - 1]);
    }
  }

  /** A content length that is no number is refused. Without one there is no body. */
  lemma OtherLengths(s: seq<Byte>, headers: seq<Header>)
    ensures GetHeader(headers, "content-length") == None ==> TakeBody(s, headers) == Ok(([], s))
    ensures GetHeader(headers, "content-length").Some? &&
            !AllDigits(RStrip(LStrip(GetHeader(headers, "content-length").value))) ==>
              TakeBody(s, headers) == Err(ParseError)
  {
  }

  /** A line without a colon is refused, wherever it stands in the head. */
  lemma {:induction false} NoColonIsRefused(raws: seq<Raw>, line: string, before: seq<Header>, rest: seq<Byte>)
    requires forall raw :: raw in raws ==> RawFits(raw)
    requires line != "" && ':' !in line && Ascii(line) && NoCrlf(line)
    ensures AllAscii(RawLines(raws) + [line])
    ensures TakeHeaders(Ended(RawLines(raws) + [line]) + rest, before) == Err(ParseError)
    decreases |raws|
  {
    if raws == [] {
      assert RawLines(raws) + [line] == [line] + [];
      EndedSplits(line, [], rest);
      assert Ended([]) + rest == rest;
      TakeWrittenLine(line, rest);
    } else {
      RawLinesSplit(raws, line, rest);
      TakeRawHeader(raws[0], before, Ended(RawLines(raws[1..]) + [line]) + rest);
      NoColonIsRefused(raws[1..], line, SetHeader(before, Lower(raws[0].name), LStrip(raws[0].text)), rest);
    }
  }

  /** So is a stream that ends before the first line does. */
  lemma UnfinishedLineIsRefused(s: seq<Byte>)
    requires forall i :: 0 <= i < |s| - 1 ==> !(s[i] == 13 && s[i + 1] == 10)
    ensures Parse(s) == Err(ParseError)
  {
  }

  // ---- Requests and responses ----

  datatype Request = Request(verb: string, target: string, version: string, headers: seq<Header>, body: seq<Byte>)

  datatype Response = Response(version: string, statusCode: int, reason: string, headers: seq<Header>, body: seq<Byte>)

  /** The three parts of a start line. The last one may hold spaces. */
  function SplitStart(line: string): Option<(string, string, string)> {
    match Find(line, ' ')
    case None => None
    case Some(i) =>
      var remainder := line[i + 1..];
      match Find(remainder, ' ')
      case None => None
      case Some(j) => Some((line[..i], remainder[..j], remainder[j + 1..]))
  }

  function RequestMessage(r: Request): Message {
    Message(r.verb + " " + r.target + " " + r.version, r.headers, r.body)
  }

  function ParseRequest(s: seq<Byte>): Result<(Request, seq<Byte>), HttpError> {
    match Parse(s)
    case Err(e) => Err(e)
    case Ok((m, rest)) =>
      match SplitStart(m.startLine)
      case None => Err(ParseError)
      case Some((verb, target, version)) => Ok((Request(verb, target, version, m.headers, m.body), rest))
  }

  function Numeral(n: int): string {
    if n < 0 then "-" + ToDecimal(-n) else ToDecimal(n)
  }

  function ResponseMessage(r: Response): Message {
    Message(r.version + " " + Numeral(r.statusCode) + " " + r.reason, r.headers, r.body)
  }

  function ParseResponse(s: seq<Byte>): Result<(Response, seq<Byte>), HttpError> {
    match Parse(s)
    case Err(e) => Err(e)
    case Ok((m, rest)) =>
      match SplitStart(m.startLine)
      case None => Err(ParseError)
      case Some((version, code, reason)) =>
        if !AllDigits(code) then Err(ParseError)
        else if |code| > MAX_INT_DIGITS then Err(NumberTooLong)
        else Ok((Response(version, ParseDecimal(code), reason, m.headers, m.body), rest))
  }

  /** Nothing but the two spaces is lost. */
  lemma SplitStartJoins(line: string)
    requires SplitStart(line).Some?
    ensures var (a, b, c) := SplitStart(line).value; line == a + " " + b + " " + c
  {
    var i := Find(line, ' ').value;
    var remainder := line[i + 1..];
    var j := Find(remainder, ' ').value;
    CutAtSpace(line, i);
    CutAtSpace(remainder, j);
    var a, b, c := line[..i], remainder[..j], remainder[j + 1..];
    Sequences.ConcatIsAssociative(a + " ", b + " ", c);
    Sequences.ConcatIsAssociative(a + " ", b, " ");
  }

  lemma CutAtSpace(line: string, i: nat)
    requires i < |line| && line[i] == ' '
    ensures line == line[..i] + " " + line[i + 1..]
  {
  }

  /** A line is refused only if there is no second space. */
  lemma NoSecondSpace(line: string, i: nat)
    requires SplitStart(line).None? && i < |line| && line[i] == ' '
    ensures ' ' !in line[i + 1..]
  {
    var first := Find(line, ' ').value;
    assert forall k :: 0 <= k < first ==> line[k] in line[..first];
    assert ' ' !in line[first + 1..];
    assert line[i + 1..] == line[first + 1..][i - first..];
  }

  /** Three parts are told apart again exactly when the first two hold no space. */
  lemma SplitStartIff(a: string, b: string, c: string)
    ensures SplitStart(a + " " + b + " " + c) == Some((a, b, c)) <==> ' ' !in a && ' ' !in b
  {
    var line := a + " " + b + " " + c;
    var tail := b + " " + c;
    if ' ' in a {
      assert line == a + (" " + tail);
      FindWithin(a, ' ', " " + tail);
    } else {
      assert line == a + [' '] + tail;
      FindAfter(a, ' ', tail);
      assert line[..|a|] == a && line[|a| + 1..] == tail;
      if ' ' in b {
        assert tail == b + (" " + c);
        FindWithin(b, ' ', " " + c);
      } else {
        assert tail == b + [' '] + c;
        FindAfter(b, ' ', c);
        assert tail[..|b|] == b && tail[|b| + 1..] == c;
      }
    }
  }

  lemma RequestRoundTripIff(r: Request, rest: seq<Byte>)
    requires HeadFits(RequestMessage(r)) && BodyFits(RequestMessage(r))
    ensures Serialized(RequestMessage(r)).Some?
    ensures ParseRequest(Serialized(RequestMessage(r)).value + rest) == Ok((r, rest)) <==>
            ' ' !in r.verb && ' ' !in r.target
  {
    MessageRoundTripIff(RequestMessage(r), rest);
    SplitStartIff(r.verb, r.target, r.version);
  }

  lemma NumeralReads(n: int)
    ensures ' ' !in Numeral(n)
    ensures AllDigits(Numeral(n)) <==> n >= 0
    ensures n >= 0 ==> Numeral(n) == ToDecimal(n) && ParseDecimal(ToDecimal(n)) == n
  {
    assert !IsDigit(' ') && !IsDigit('-');
    if n >= 0 {
      ParseToDecimal(n);
    } else {
      assert '-' in Numeral(n);
    }
  }

  lemma ResponseRoundTripIff(r: Response, rest: seq<Byte>)
    requires HeadFits(ResponseMessage(r)) && BodyFits(ResponseMessage(r))
    ensures Serialized(ResponseMessage(r)).Some?
    ensures ParseResponse(Serialized(ResponseMessage(r)).value + rest) == Ok((r, rest)) <==>
            ' ' !in r.version && r.statusCode >= 0 && |ToDecimal(r.statusCode)| <= MAX_INT_DIGITS
  {
    MessageRoundTripIff(ResponseMessage(r), rest);
    StatusLineIff(r, rest);
  }

  lemma StatusLineIff(r: Response, rest: seq<Byte>)
    requires Serialized(ResponseMessage(r)).Some?
    requires Parse(Serialized(ResponseMessage(r)).value + rest) == Ok((ResponseMessage(r), rest))
    ensures ParseResponse(Serialized(ResponseMessage(r)).value + rest) == Ok((r, rest)) <==>
            ' ' !in r.version && r.statusCode >= 0 && |ToDecimal(r.statusCode)| <= MAX_INT_DIGITS
  {
    NumeralReads(r.statusCode);
    SplitStartIff(r.version, Numeral(r.statusCode), r.reason);
  }

  lemma AsBytesConcat(a: string, b: string)
    requires Ascii(a) && Ascii(b)
    ensures Ascii(a + b) && AsBytes(a + b) == AsBytes(a) + AsBytes(b)
  {
  }

  lemma WrittenLine(line: string)
    requires Ascii(line)
    ensures Ascii(line + "\r\n") && AsBytes(line + "\r\n") == AsBytes(line) + [13, 10]
  {
    AsBytesConcat(line, "\r\n");
  }

  /** What a message with one header looks like on the wire. */
  lemma WrittenMessage(start: string, name: string, value: string, body: seq<Byte>)
    requires Ascii(start) && Ascii(name) && Ascii(value)
    ensures Ascii(start + "\r\n") && Ascii(name + ": " + value + "\r\n") && Ascii("\r\n")
    ensures Serialized(Message(start, [Header(name, value)], body)) ==
            Some(AsBytes(start + "\r\n") + AsBytes(name + ": " + value + "\r\n") + AsBytes("\r\n") + body)
  {
    var line := name + ": " + value;
    WrittenLine(start);
    WrittenLine(line);
    assert AsBytes("\r\n") == [13, 10];
    var m := Message(start, [Header(name, value)], body);
    assert HeaderLines(m.headers[1..]) == [] && HeaderLines(m.headers) == [line];
    assert Lines(m) == [start, line, ""];
    EndedThree(start, line);
  }

  lemma EndedThree(start: string, line: string)
    requires Ascii(start) && Ascii(line)
    ensures Ended([start, line, ""]) == AsBytes(start) + CRLF + (AsBytes(line) + CRLF) + CRLF
  {
    assert [start, line, ""][1..] == [line, ""] && [line, ""][1..] == [""] && [""][1..] == [];
    assert Ended([""]) == AsBytes("") + CRLF + Ended([]) == CRLF;
    assert Ended([line, ""]) == AsBytes(line) + CRLF + CRLF;
    var a, b := AsBytes(start) + CRLF, AsBytes(line) + CRLF;
    assert a + (b + CRLF) == a + b + CRLF;
  }

  // ---- The code ----

  class StreamReader {
    var pending: seq<Byte>

    constructor (pending: seq<Byte>)
      ensures this.pending == pending
    {
      this.pending := pending;
    }

    /** Up to and with the first CRLF. None if the connection ends before one. */
    method ReadUntilCrlf() returns (r: Option<seq<Byte>>)
      modifies this
      ensures match FindCrlf(old(pending))
              case None => r == None && pending == old(pending)
              case Some(i) => r == Some(old(pending)[..i + 2]) && pending == old(pending)[i + 2..]
    {
      var found := FindCrlf(pending);
      if found.None? {
        return None;
      }
      r := Some(pending[..found.value + 2]);
      pending := pending[found.value + 2..];
    }

    method ReadExactly(n: nat) returns (r: Option<seq<Byte>>)
      modifies this
      ensures if n > |old(pending)| then r == None
              else r == Some(old(pending)[..n]) && pending == old(pending)[n..]
    {
      if n > |pending| {
        return None;
      }
      r := Some(pending[..n]);
      pending := pending[n..];
    }

    method ReadLine() returns (r: Result<string, HttpError>)
      modifies this
      ensures match TakeLine(old(pending))
              case Err(e) => r == Err(e)
              case Ok((line, rest)) => r == Ok(line) && pending == rest
    {
      ghost var s := pending;
      var raw := ReadUntilCrlf();
      if raw.None? {
        return Err(ParseError);
      }
      var line := raw.value[..|raw.value| - 2];
      assert line == s[..FindCrlf(s).value];
      var decoded := DecodeAscii(line);
      r := if decoded.None? then Err(NotAscii) else Ok(decoded.value);
    }
  }

  method Deserialize(reader: StreamReader) returns (r: Result<Message, HttpError>)
    modifies reader
    ensures match Parse(old(reader.pending))
            case Err(e) => r == Err(e)
            case Ok((m, rest)) => r == Ok(m) && reader.pending == rest
  {
    var start := reader.ReadLine();
    if start.Err? {
      return Err(start.error);
    }
    var headers: seq<Header> := [];
    ghost var afterStart := reader.pending;
    while true
      invariant TakeHeaders(reader.pending, headers) == TakeHeaders(afterStart, [])
      decreases |reader.pending|
    {
      var line := reader.ReadLine();
      if line.Err? {
        return Err(line.error);
      }
      if line.value == "" {
        break;
      }
      var colon := Find(line.value, ':');
      if colon.None? {
        return Err(ParseError);
      }
      var key := Lower(line.value[..colon.value]);
      var value := LStrip(line.value[colon.value + 1..]);
      headers := SetHeader(headers, key, value);
    }
    assert TakeHeaders(afterStart, []) == Ok((headers, reader.pending));
    var body: seq<Byte> := [];
    var contentLength := GetHeader(headers, CONTENT_LENGTH);
    if contentLength.Some? {
      var length := RStrip(LStrip(contentLength.value));
      if !AllDigits(length) {
        return Err(ParseError);
      }
      if |length| > MAX_INT_DIGITS {
        return Err(NumberTooLong);
      }
      var read := reader.ReadExactly(ParseDecimal(length));
      if read.None? {
        return Err(ParseError);
      }
      body := read.value;
    }
    r := Ok(Message(start.value, headers, body));
  }

  class StreamWriter {
    var written: seq<Byte>

    constructor ()
      ensures written == []
    {
      written := [];
    }

    method Write(data: seq<Byte>)
      modifies this
      ensures written == old(written) + data
    {
      written := written + data;
    }
  }

  lemma {:induction false} HeaderLinesAppend(hs: seq<Header>, h: Header)
    ensures HeaderLines(hs + [h]) == HeaderLines(hs) + [HeaderLine(h)]
  {
    if hs != [] {
      assert (hs + [h])[1..] == hs[1..] + [h];
      HeaderLinesAppend(hs[1..], h);
    }
  }

  method Serialize(m: Message, writer: StreamWriter) returns (ok: bool)
    modifies writer
    ensures ok == Serialized(m).Some?
    ensures writer.written == if ok then old(writer.written) + Serialized(m).value else old(writer.written)
  {
    var lines := [m.startLine];
    for i := 0 to |m.headers|
      invariant lines == [m.startLine] + HeaderLines(m.headers[..i])
      invariant writer.written == old(writer.written)
    {
      assert m.headers[..i + 1] == m.headers[..i] + [m.headers[i]];
      HeaderLinesAppend(m.headers[..i], m.headers[i]);
      lines := lines + [m.headers[i].name + ": " + m.headers[i].value];
    }
    assert m.headers[..|m.headers|] == m.headers;
    assert lines + [""] == Lines(m);
    lines := lines + ["", ""];
    assert lines == Lines(m) + [""];
    if exists line :: line in lines && !Ascii(line) {
      return false;
    }
    assert forall line :: line in Lines(m) ==> line in lines;
    JoinedIsEnded(Lines(m));
    writer.Write(Joined(lines) + m.body);
    ok := true;
  }

  method SplitStartLine(line: string) returns (r: Option<(string, string, string)>)
    ensures r == SplitStart(line)
  {
    var space := Find(line, ' ');
    if space.None? {
      return None;
    }
    var first := line[..space.value];
    var remainder := line[space.value + 1..];
    space := Find(remainder, ' ');
    if space.None? {
      return None;
    }
    r := Some((first, remainder[..space.value], remainder[space.value + 1..]));
  }

  method DeserializeRequest(reader: StreamReader) returns (r: Result<Request, HttpError>)
    modifies reader
    ensures match ParseRequest(old(reader.pending))
            case Err(e) => r == Err(e)
            case Ok((request, rest)) => r == Ok(request) && reader.pending == rest
  {
    var message := Deserialize(reader);
    if message.Err? {
      return Err(message.error);
    }
    var parts := SplitStartLine(message.value.startLine);
    if parts.None? {
      return Err(ParseError);
    }
    var (verb, target, version) := parts.value;
    r := Ok(Request(verb, target, version, message.value.headers, message.value.body));
  }

  method DeserializeResponse(reader: StreamReader) returns (r: Result<Response, HttpError>)
    modifies reader
    ensures match ParseResponse(old(reader.pending))
            case Err(e) => r == Err(e)
            case Ok((response, rest)) => r == Ok(response) && reader.pending == rest
  {
    var message := Deserialize(reader);
    if message.Err? {
      return Err(message.error);
    }
    var parts := SplitStartLine(message.value.startLine);
    if parts.None? {
      return Err(ParseError);
    }
    var (version, statusCode, reason) := parts.value;
    if !AllDigits(statusCode) {
      return Err(ParseError);
    }
    if |statusCode| > MAX_INT_DIGITS {
      return Err(NumberTooLong);
    }
    r := Ok(Response(version, ParseDecimal(statusCode), reason, message.value.headers, message.value.body));
  }
}
