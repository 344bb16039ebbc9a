/**
 Framing of policy requests on a persistent stream of bytes (src/protocol.rs).
 */
module Protocol {
  newtype Byte = b: int | 0 <= b < 256
  type Bytes = seq<Byte>

  const LF: Byte := 10
  const CR: Byte := 13
  const EQUALS: Byte := 61

  // One request's size limit in bytes, blank line included.
  const MAX_REQUEST_BYTES: nat := 65536

  type Attributes = map<Bytes, Bytes>

  datatype ReadError = TooLarge | ClosedMidRequest | InvalidUtf8

  datatype ReadResult = Request(attributes: Attributes) | EndOfStream | Failed(error: ReadError)

  /** Which byte strings are valid UTF-8; left open. */
  type Utf8 = Bytes -> bool

  // ---------- reading ----------

  /** The end of the line that starts before `from`: past the first line feed, or where the limit or the stream ends. */
  function LineEnd(s: Bytes, from: nat, limit: nat): (n: nat)
    requires from <= |s| && from <= limit
    ensures from <= n <= |s| && n <= limit
    decreases |s| - from
  {
    if from == limit || from == |s| then from
    else if s[from] == LF then from + 1
    else LineEnd(s, from + 1, limit)
  }

  function Line(s: Bytes, limit: nat): (line: Bytes)
    ensures |line| <= limit && |line| <= |s|
    ensures line == [] <==> limit == 0 || s == []
  {
    s[..LineEnd(s, 0, limit)]
  }

  /** The length of `s[..n]` without trailing line feeds and carriage returns. */
  function TrimmedLength(s: Bytes, n: nat): (m: nat)
    requires n <= |s|
    ensures m <= n
  {
    if n > 0 && (s[n - 1] == LF || s[n - 1] == CR) then TrimmedLength(s, n - 1) else n
  }

  /** `trim_end_matches` of line feeds and carriage returns. */
  function TrimEnd(s: Bytes): Bytes {
    s[..TrimmedLength(s, |s|)]
  }

  /** The index of the first `=` from `from` on, or the length when there is none. */
  function EqualsAt(s: Bytes, from: nat): (i: nat)
    requires from <= |s|
    ensures from <= i <= |s| && (i < |s| ==> s[i] == EQUALS)
    decreases |s| - from
  {
    if from == |s| || s[from] == EQUALS then from else EqualsAt(s, from + 1)
  }

  /** The attributes after one more line; a line without `=` is passed over. */
  function WithLine(attributes: Attributes, trimmed: Bytes): Attributes {
    var i := EqualsAt(trimmed, 0);
    if i < |trimmed| then attributes[trimmed[..i] := trimmed[i + 1..]] else attributes
  }

  /** What a read returns and leaves on the stream. */
  function Reading(utf8: Utf8, s: Bytes, limit: nat, attributes: Attributes): (ReadResult, Bytes)
    decreases limit
  {
    var line := Line(s, limit);
    var rest := s[|line|..];
    if line == [] then (if limit == 0 then Failed(TooLarge) else EndOfStream, rest)
    else if !utf8(line) then (Failed(InvalidUtf8), rest)
    else if line[|line| - 1] != LF then (Failed(if |line| == limit then TooLarge else ClosedMidRequest), rest)
    else if TrimEnd(line) == [] then (Request(attributes), rest)
    else Reading(utf8, rest, limit - |line|, WithLine(attributes, TrimEnd(line)))
  }

  /** A connection's read side: what the peer will still send before it closes. */
  class Reader {
    var rest: Bytes

    constructor (rest: Bytes)
      ensures this.rest == rest
    {
      this.rest := rest;
    }

    /** `read_line` on a reader limited to `limit` more bytes. */
    method ReadLine(limit: nat) returns (line: Bytes)
      modifies this
      ensures line == Line(old(rest), limit) && rest == old(rest)[|line|..]
    {
      line := Line(rest, limit);
      rest := rest[|line|..];
    }

    /** `read_from`: one request, at most the size limit, leaving whatever follows it on the stream. */
    method ReadFrom(utf8: Utf8) returns (r: ReadResult)
      modifies this
      ensures (r, rest) == Reading(utf8, old(rest), 65536, map[])
    {
      var attributes: Attributes := map[];
      var limit: nat := MAX_REQUEST_BYTES;
      while true
        invariant Reading(utf8, rest, limit, attributes) == Reading(utf8, old(rest), MAX_REQUEST_BYTES, map[])
        decreases limit
      {
        var line := ReadLine(limit);
        var read := |line|;
        limit := limit - read;
        if read == 0 {
          return if limit == 0 then Failed(TooLarge) else EndOfStream;
        }
        if !utf8(line) {
          return Failed(InvalidUtf8);
        }
        if line[read - 1] != LF {
          return if limit == 0 then Failed(TooLarge) else Failed(ClosedMidRequest);
        }
        var trimmed := TrimEnd(line);
        if trimmed == [] {
          return Request(attributes);
        }
        attributes := WithLine(attributes, trimmed);
      }
    }
  }

  // ---------- printing ----------

  datatype Attribute = Attribute(key: Bytes, value: Bytes)

  /** What survives a trip over the wire: no line feeds, no `=` in the key, no carriage return at the end. */
  predicate Printable(a: Attribute) {
    && LF !in a.key && EQUALS !in a.key && LF !in a.value
    && (a.value != [] ==> a.value[|a.value| - 1] != CR)
  }

  function PrintAttribute(a: Attribute): Bytes {
    a.key + [EQUALS] + a.value + [LF]
  }

  function Print(request: seq<Attribute>): Bytes {
    if request == [] then [LF] else PrintAttribute(request[0]) + Print(request[1..])
  }

  /** The attributes that a request adds; of duplicates, the last wins. */
  function Collect(attributes: Attributes, request: seq<Attribute>): Attributes
    decreases request
  {
    if request == [] then attributes
    else Collect(attributes[request[0].key := request[0].value], request[1..])
  }

  ghost predicate Sendable(utf8: Utf8, request: seq<Attribute>) {
    && utf8([LF])
    && forall a :: a in request ==> Printable(a) && utf8(PrintAttribute(a))
  }

  lemma {:induction false} LineEndsAtFirstLineFeed(s: Bytes, from: nat, limit: nat, n: nat)
    requires from <= n < |s| && n < limit && s[n] == LF
    requires forall k :: from <= k < n ==> s[k] != LF
    ensures LineEnd(s, from, limit) == n + 1
    decreases n - from
  {
    if from < n {
      LineEndsAtFirstLineFeed(s, from + 1, limit, n);
    }
  }

  lemma {:induction false} EqualsIsFound(s: Bytes, from: nat, n: nat)
    requires from <= n < |s| && s[n] == EQUALS
    requires forall k :: from <= k < n ==> s[k] != EQUALS
    ensures EqualsAt(s, from) == n
    decreases n - from
  {
    if from < n {
      EqualsIsFound(s, from + 1, n);
    }
  }

  /** A printed attribute is read back as itself. */
  lemma AttributeRoundTrip(a: Attribute, attributes: Attributes)
    requires Printable(a)
    ensures TrimEnd(PrintAttribute(a)) == a.key + [EQUALS] + a.value
    ensures WithLine(attributes, TrimEnd(PrintAttribute(a))) == attributes[a.key := a.value]
  {
    var printed := PrintAttribute(a);
    var text := a.key + [EQUALS] + a.value;
    assert printed == text + [LF];
    assert text[|text| - 1] == if a.value == [] then EQUALS else a.value[|a.value| - 1];
    assert TrimmedLength(printed, |text|) == |text|;
    EqualsIsFound(text, 0, |a.key|);
    assert text[..|a.key|] == a.key && text[|a.key| + 1..] == a.value;
  }

  /** A line that is neither blank nor cut short adds its attribute, and reading goes on after it. */
  lemma ReadingMovesOn(utf8: Utf8, s: Bytes, limit: nat, attributes: Attributes)
    requires Line(s, limit) != [] && Line(s, limit)[|Line(s, limit)| - 1] == LF && TrimEnd(Line(s, limit)) != []
    ensures Reading(utf8, s, limit, attributes)
         == if utf8(Line(s, limit))
            then Reading(utf8, s[|Line(s, limit)|..], limit - |Line(s, limit)|,
                         WithLine(attributes, TrimEnd(Line(s, limit))))
            else (Failed(InvalidUtf8), s[|Line(s, limit)|..])
  {
  }

  /** One more printed attribute is read off the stream, if the limit leaves room for it. */
  lemma AttributeIsRead(utf8: Utf8, a: Attribute, more: Bytes, limit: nat, attributes: Attributes)
    requires Printable(a) && utf8(PrintAttribute(a)) && |PrintAttribute(a)| <= limit
    ensures Reading(utf8, PrintAttribute(a) + more, limit, attributes)
         == Reading(utf8, more, limit - |PrintAttribute(a)|, attributes[a.key := a.value])
  {
    var printed := PrintAttribute(a);
    LineEndsAtFirstLineFeed(printed + more, 0, limit, |printed| - 1);
    assert Line(printed + more, limit) == printed;
    AttributeRoundTrip(a, attributes);
    ReadingMovesOn(utf8, printed + more, limit, attributes);
    assert (printed + more)[|printed|..] == more;
  }

  lemma BlankLineEndsRequest(utf8: Utf8, more: Bytes, limit: nat, attributes: Attributes)
    requires utf8([LF]) && limit > 0
    ensures Reading(utf8, [LF] + more, limit, attributes) == (Request(attributes), more)
  {
    assert Line([LF] + more, limit) == [LF];
    assert TrimmedLength([LF], 0) == 0;
    assert ([LF] + more)[1..] == more;
  }

  /** Reading a printed request comes down to reading what follows its first attribute. */
  lemma FirstAttributeIsRead(utf8: Utf8, request: seq<Attribute>, more: Bytes, limit: nat, attributes: Attributes)
    requires request != [] && Printable(request[0]) && utf8(PrintAttribute(request[0]))
    requires |PrintAttribute(request[0])| <= limit
    ensures Reading(utf8, Print(request) + more, limit, attributes)
         == Reading(utf8, Print(request[1..]) + more, limit - |PrintAttribute(request[0])|,
                    attributes[request[0].key := request[0].value])
  {
    AttributeIsRead(utf8, request[0], Print(request[1..]) + more, limit, attributes);
    Regrouped(PrintAttribute(request[0]), Print(request[1..]), more);
  }

  lemma FirstAttributeIsSendable(utf8: Utf8, request: seq<Attribute>)
    requires Sendable(utf8, request) && request != []
    ensures Printable(request[0]) && utf8(PrintAttribute(request[0])) && Sendable(utf8, request[1..])
    ensures |Print(request)| == |PrintAttribute(request[0])| + |Print(request[1..])|
  {
    assert request[0] in request;
  }

  /** A printed request, with `more` after it, is read back as its attributes, and `more` is left. */
  ghost predicate ReadsBack(utf8: Utf8, request: seq<Attribute>, more: Bytes, limit: nat, attributes: Attributes) {
    Reading(utf8, Print(request) + more, limit, attributes) == (Request(Collect(attributes, request)), more)
  }

  /** When what follows its first attribute is read back, so is the request. */
  lemma RoundTripExtends(utf8: Utf8, request: seq<Attribute>, more: Bytes, limit: nat, attributes: Attributes)
    requires request != [] && Printable(request[0]) && utf8(PrintAttribute(request[0]))
    requires |PrintAttribute(request[0])| <= limit
    requires ReadsBack(utf8, request[1..], more, limit - |PrintAttribute(request[0])|,
                       attributes[request[0].key := request[0].value])
    ensures ReadsBack(utf8, request, more, limit, attributes)
  {
    FirstAttributeIsRead(utf8, request, more, limit, attributes);
  }

  /** Whatever follows it, and under any limit that it fits, the request is read back exactly. */
  ghost predicate IsFramed(utf8: Utf8, request: seq<Attribute>) {
    forall more, limit: nat, attributes | |Print(request)| <= limit :: ReadsBack(utf8, request, more, limit, attributes)
  }

  lemma EmptyRequestIsFramed(utf8: Utf8)
    requires utf8([LF])
    ensures IsFramed(utf8, [])
  {
    forall more, limit: nat, attributes | |Print([])| <= limit
      ensures ReadsBack(utf8, [], more, limit, attributes)
    {
      BlankLineEndsRequest(utf8, more, limit, attributes);
    }
  }

  /** When what follows its first attribute is framed, so is the request. */
  lemma FramingExtends(utf8: Utf8, request: seq<Attribute>)
    requires request != [] && Printable(request[0]) && utf8(PrintAttribute(request[0]))
    requires IsFramed(utf8, request[1..])
    ensures IsFramed(utf8, request)
  {
    var a, tail := request[0], request[1..];
    forall more, limit: nat, attributes | |Print(request)| <= limit
      ensures ReadsBack(utf8, request, more, limit, attributes)
    {
      assert ReadsBack(utf8, tail, more, limit - |PrintAttribute(a)|, attributes[a.key := a.value]);
      RoundTripExtends(utf8, request, more, limit, attributes);
    }
  }

  /** A printed request within the limit is read back exactly, and nothing of what follows it is touched. */
  lemma {:induction false} RequestRoundTrip(utf8: Utf8, request: seq<Attribute>)
    requires Sendable(utf8, request)
    ensures IsFramed(utf8, request)
  {
    if request == [] {
      EmptyRequestIsFramed(utf8);
    } else {
      FirstAttributeIsSendable(utf8, request);
      RequestRoundTrip(utf8, request[1..]);
      FramingExtends(utf8, request);
    }
  }

  lemma Regrouped(a: Bytes, b: Bytes, c: Bytes)
    ensures a + b + c == a + (b + c)
  {
  }

  /** A stream of requests, one after the other. */
  function PrintAll(requests: seq<seq<Attribute>>): Bytes {
    if requests == [] then [] else Print(requests[0]) + PrintAll(requests[1..])
  }

  /** The results of `n` reads in a row. */
  function ReadMany(utf8: Utf8, s: Bytes, n: nat): (seq<ReadResult>, Bytes)
    decreases n
  {
    if n == 0 then ([], s)
    else
      var (first, rest) := Reading(utf8, s, MAX_REQUEST_BYTES, map[]);
      var (others, left) := ReadMany(utf8, rest, n - 1);
      ([first] + others, left)
  }

  function Sent(requests: seq<seq<Attribute>>): seq<ReadResult> {
    if requests == [] then [] else [Request(Collect(map[], requests[0]))] + Sent(requests[1..])
  }

  /** Framing. Requests sent back to back come out one by one, in order, each whole, to the last byte. */
  lemma {:induction false} StreamsRoundTrip(utf8: Utf8, requests: seq<seq<Attribute>>)
    requires forall r :: r in requests ==> Sendable(utf8, r) && |Print(r)| <= 65536
    ensures ReadMany(utf8, PrintAll(requests), |requests|) == (Sent(requests), [])
  {
    if requests != [] {
      assert requests[0] in requests;
      RequestRoundTrip(utf8, requests[0]);
      assert ReadsBack(utf8, requests[0], PrintAll(requests[1..]), MAX_REQUEST_BYTES, map[]);
      StreamsRoundTrip(utf8, requests[1..]);
    }
  }

  // ---------- requests as others write them ----------

  /** A line's text and the carriage returns before its line feed. */
  datatype WireLine = WireLine(text: Bytes, crs: nat)

  function Terminated(line: WireLine): Bytes {
    line.text + seq(line.crs, _ => CR) + [LF]
  }

  /** A line that does not end the request. */
  predicate IsOrdinary(line: WireLine) {
    line.text != [] && LF !in line.text && line.text[|line.text| - 1] != CR
  }

  function PrintLines(lines: seq<WireLine>, crs: nat): Bytes {
    if lines == [] then Terminated(WireLine([], crs)) else Terminated(lines[0]) + PrintLines(lines[1..], crs)
  }

  /** The text is the key, an `=` and the value; the key ends at the first `=`. */
  predicate IsPair(text: Bytes, key: Bytes, value: Bytes) {
    text == key + [EQUALS] + value && EQUALS !in key
  }

  /** What a line adds to the attributes: its pair, if it has an `=` at all. */
  ghost predicate Adds(before: Attributes, text: Bytes, after: Attributes) {
    if EQUALS in text then exists key, value :: IsPair(text, key, value) && after == before[key := value]
    else after == before
  }

  ghost predicate AddsAll(before: Attributes, lines: seq<WireLine>, after: Attributes)
    decreases lines
  {
    if lines == [] then after == before
    else exists between :: Adds(before, lines[0].text, between) && AddsAll(between, lines[1..], after)
  }

  lemma {:induction false} ReturnsAreTrimmed(text: Bytes, ends: Bytes)
    requires text == [] || (text[|text| - 1] != LF && text[|text| - 1] != CR)
    requires forall b :: b in ends ==> b == LF || b == CR
    ensures TrimmedLength(text + ends, |text + ends|) == |text|
    decreases |ends|
  {
    TrimmedPast(text, ends, |ends|);
  }

  lemma {:induction false} TrimmedPast(text: Bytes, ends: Bytes, n: nat)
    requires text == [] || (text[|text| - 1] != LF && text[|text| - 1] != CR)
    requires n <= |ends| && forall b :: b in ends ==> b == LF || b == CR
    ensures TrimmedLength(text + ends, |text| + n) == |text|
  {
    if n > 0 {
      assert ends[n - 1] in ends;
      assert (text + ends)[|text| + n - 1] == ends[n - 1];
      TrimmedPast(text, ends, n - 1);
    } else if text != [] {
      assert (text + ends)[|text| - 1] == text[|text| - 1];
    }
  }

  /** Trimming takes off the line feed and the carriage returns before it, and nothing else. */
  lemma TextIsLeft(line: WireLine)
    requires line.text == [] || IsOrdinary(line)
    ensures TrimEnd(Terminated(line)) == line.text
  {
    var ends := seq(line.crs, _ => CR) + [LF];
    assert line.text != [] ==> line.text[|line.text| - 1] in line.text;
    assert Terminated(line) == line.text + ends;
    ReturnsAreTrimmed(line.text, ends);
  }

  lemma TerminatedIsLine(line: WireLine, more: Bytes, limit: nat)
    requires LF !in line.text && |Terminated(line)| <= limit
    ensures Line(Terminated(line) + more, limit) == Terminated(line)
    ensures (Terminated(line) + more)[|Terminated(line)|..] == more
  {
    var t := Terminated(line);
    LineEndsAtFirstLineFeed(t + more, 0, limit, |t| - 1);
  }

  lemma SplitAround(text: Bytes, i: nat)
    requires i < |text| && text[i] == EQUALS && forall k :: 0 <= k < i ==> text[k] != EQUALS
    ensures IsPair(text, text[..i], text[i + 1..])
  {
  }

  lemma EqualsIsFirst(text: Bytes)
    requires EQUALS in text
    ensures var i := EqualsAt(text, 0); i < |text| && IsPair(text, text[..i], text[i + 1..])
  {
    var n :| 0 <= n < |text| && text[n] == EQUALS;
    NoEqualsBefore(text, 0);
    SplitAround(text, EqualsAt(text, 0));
  }

  lemma {:induction false} NoEqualsBefore(text: Bytes, from: nat)
    requires from <= |text|
    ensures forall k :: from <= k < EqualsAt(text, from) ==> text[k] != EQUALS
    decreases |text| - from
  {
    if from < |text| && text[from] != EQUALS {
      NoEqualsBefore(text, from + 1);
    }
  }

  /** A line adds its pair, split at the first `=`; a line without one is passed over. */
  lemma LineAdds(attributes: Attributes, text: Bytes)
    ensures Adds(attributes, text, WithLine(attributes, text))
  {
    if EQUALS in text {
      EqualsIsFirst(text);
    } else {
      NoEqualsIsFound(text);
    }
  }

  lemma NoEqualsIsFound(text: Bytes)
    requires EQUALS !in text
    ensures EqualsAt(text, 0) == |text|
  {
  }

  lemma OrdinaryLineIsRead(utf8: Utf8, line: WireLine, more: Bytes, limit: nat, attributes: Attributes)
    requires IsOrdinary(line) && utf8(Terminated(line)) && |Terminated(line)| <= limit
    ensures Reading(utf8, Terminated(line) + more, limit, attributes)
         == Reading(utf8, more, limit - |Terminated(line)|, WithLine(attributes, line.text))
  {
    TerminatedIsLine(line, more, limit);
    TextIsLeft(line);
    ReadingMovesOn(utf8, Terminated(line) + more, limit, attributes);
  }

  lemma BlankTerminatedLineEnds(utf8: Utf8, crs: nat, more: Bytes, limit: nat, attributes: Attributes)
    requires utf8(Terminated(WireLine([], crs))) && |Terminated(WireLine([], crs))| <= limit
    ensures Reading(utf8, Terminated(WireLine([], crs)) + more, limit, attributes) == (Request(attributes), more)
  {
    TerminatedIsLine(WireLine([], crs), more, limit);
    TextIsLeft(WireLine([], crs));
  }

  /** A request in any hand: carriage returns or none, lines that are no attributes. */
  ghost predicate IsLegible(utf8: Utf8, lines: seq<WireLine>, crs: nat) {
    && utf8(Terminated(WireLine([], crs)))
    && forall l :: l in lines ==> IsOrdinary(l) && utf8(Terminated(l))
  }

  function CollectLines(attributes: Attributes, lines: seq<WireLine>): Attributes
    decreases lines
  {
    if lines == [] then attributes else CollectLines(WithLine(attributes, lines[0].text), lines[1..])
  }

  lemma {:induction false} CollectedLinesAddUp(attributes: Attributes, lines: seq<WireLine>)
    ensures AddsAll(attributes, lines, CollectLines(attributes, lines))
    decreases lines
  {
    if lines != [] {
      LineAdds(attributes, lines[0].text);
      CollectedLinesAddUp(WithLine(attributes, lines[0].text), lines[1..]);
    }
  }

  ghost predicate LinesAreRead(utf8: Utf8, lines: seq<WireLine>, crs: nat, more: Bytes, limit: nat,
                               attributes: Attributes)
  {
    Reading(utf8, PrintLines(lines, crs) + more, limit, attributes) == (Request(CollectLines(attributes, lines)), more)
  }

  ghost predicate LinesAreFramed(utf8: Utf8, lines: seq<WireLine>, crs: nat) {
    forall more, limit: nat, attributes | |PrintLines(lines, crs)| <= limit ::
      LinesAreRead(utf8, lines, crs, more, limit, attributes)
  }

  lemma NoLinesAreFramed(utf8: Utf8, crs: nat)
    requires utf8(Terminated(WireLine([], crs)))
    ensures LinesAreFramed(utf8, [], crs)
  {
    forall more, limit: nat, attributes | |PrintLines([], crs)| <= limit
      ensures LinesAreRead(utf8, [], crs, more, limit, attributes)
    {
      BlankTerminatedLineEnds(utf8, crs, more, limit, attributes);
    }
  }

  lemma LineFramingExtends(utf8: Utf8, lines: seq<WireLine>, crs: nat)
    requires lines != [] && IsOrdinary(lines[0]) && utf8(Terminated(lines[0]))
    requires LinesAreFramed(utf8, lines[1..], crs)
    ensures LinesAreFramed(utf8, lines, crs)
  {
    var line, rest := lines[0], lines[1..];
    forall more, limit: nat, attributes | |PrintLines(lines, crs)| <= limit
      ensures LinesAreRead(utf8, lines, crs, more, limit, attributes)
    {
      OrdinaryLineIsRead(utf8, line, PrintLines(rest, crs) + more, limit, attributes);
      Regrouped(Terminated(line), PrintLines(rest, crs), more);
      assert LinesAreRead(utf8, rest, crs, more, limit - |Terminated(line)|, WithLine(attributes, line.text));
    }
  }

  lemma {:induction false} LegibleLinesAreFramed(utf8: Utf8, lines: seq<WireLine>, crs: nat)
    requires IsLegible(utf8, lines, crs)
    ensures LinesAreFramed(utf8, lines, crs)
  {
    if lines == [] {
      NoLinesAreFramed(utf8, crs);
    } else {
      assert lines[0] in lines;
      LegibleLinesAreFramed(utf8, lines[1..], crs);
      LineFramingExtends(utf8, lines, crs);
    }
  }

  /**
   Requests need not be printed as neatly. Lines may end in carriage returns, also the blank one, and lines without
   `=` are passed over; values may hold further `=`. The request read is what its lines add up to, in order, and what
   follows it is left.
   */
  lemma LegibleRequestsAreRead(utf8: Utf8, lines: seq<WireLine>, crs: nat, more: Bytes, limit: nat,
                               attributes: Attributes)
    requires IsLegible(utf8, lines, crs) && |PrintLines(lines, crs)| <= limit
    ensures exists sum :: AddsAll(attributes, lines, sum)
              && Reading(utf8, PrintLines(lines, crs) + more, limit, attributes) == (Request(sum), more)
  {
    LegibleLinesAreFramed(utf8, lines, crs);
    assert LinesAreRead(utf8, lines, crs, more, limit, attributes);
    CollectedLinesAddUp(attributes, lines);
  }

  // ---------- every stream ----------

  /** `s[start..end]` is a blank line: nothing but carriage returns before its line feed. */
  ghost predicate BlankLine(s: Bytes, start: nat, end: nat) {
    && start < end <= |s| && s[end - 1] == LF
    && (start == 0 || s[start - 1] == LF)
    && forall k :: start <= k < end - 1 ==> s[k] == CR
  }

  /** A request is completed within the first `limit` bytes. */
  ghost predicate CompletesWithin(s: Bytes, limit: nat) {
    exists start: nat, end: nat :: BlankLine(s, start, end) && end <= limit
  }

  lemma {:induction false} LineEndShape(s: Bytes, from: nat, limit: nat)
    requires from <= |s| && from <= limit
    ensures var n := LineEnd(s, from, limit);
            && (forall k :: from <= k < n - 1 ==> s[k] != LF)
            && (n > from && s[n - 1] != LF ==> n == limit || n == |s|)
            && (n == from ==> n == limit || n == |s|)
    decreases |s| - from
  {
    if from < limit && from < |s| && s[from] != LF {
      LineEndShape(s, from + 1, limit);
    }
  }

  lemma LineShape(s: Bytes, limit: nat)
    ensures var line := Line(s, limit);
            && line == s[..|line|] && |line| <= limit
            && (forall k :: 0 <= k < |line| - 1 ==> s[k] != LF)
            && (line == [] ==> limit == 0 || s == [])
            && (line != [] && line[|line| - 1] != LF ==> |line| == limit || line == s)
  {
    LineEndShape(s, 0, limit);
  }

  lemma {:induction false} TrimmedToNothing(s: Bytes, n: nat)
    requires n <= |s|
    ensures TrimmedLength(s, n) == 0 <==> forall k :: 0 <= k < n ==> s[k] == LF || s[k] == CR
  {
    if n > 0 && (s[n - 1] == LF || s[n - 1] == CR) {
      TrimmedToNothing(s, n - 1);
    }
  }

  /** The first `n` bytes of `s` are a line that is not blank. */
  ghost predicate OpensWithLine(s: Bytes, n: nat) {
    && 0 < n <= |s| && s[n - 1] == LF
    && (forall k :: 0 <= k < n - 1 ==> s[k] != LF)
    && exists k :: 0 <= k < n - 1 && s[k] != CR
  }

  lemma BlankLinesComeLater(s: Bytes, n: nat, start: nat, end: nat)
    requires OpensWithLine(s, n) && BlankLine(s, start, end)
    ensures n <= start
  {
    assert s[n - 1] == LF;
  }

  /** Past a line that is not blank, a request is completed by what remains. */
  lemma CompletionIsAfterLine(s: Bytes, n: nat, limit: nat)
    requires OpensWithLine(s, n) && n <= limit
    ensures CompletesWithin(s, limit) <==> CompletesWithin(s[n..], limit - n)
  {
    var rest := s[n..];
    if CompletesWithin(s, limit) {
      var start: nat, end: nat :| BlankLine(s, start, end) && end <= limit;
      BlankLinesComeLater(s, n, start, end);
      assert BlankLine(rest, start - n, end - n);
    }
    if CompletesWithin(rest, limit - n) {
      var start: nat, end: nat :| BlankLine(rest, start, end) && end <= limit - n;
      assert BlankLine(s, start + n, end + n);
    }
  }

  lemma LineOpens(s: Bytes, limit: nat)
    requires Line(s, limit) != [] && TrimEnd(Line(s, limit)) != [] && Line(s, limit)[|Line(s, limit)| - 1] == LF
    ensures OpensWithLine(s, |Line(s, limit)|)
  {
    var line := Line(s, limit);
    LineShape(s, limit);
    TrimmedToNothing(line, |line|);
    assert forall k :: 0 <= k < |line| ==> s[k] == line[k];
    var k :| 0 <= k < |line| && line[k] != LF && line[k] != CR;
    assert s[k] != CR;
  }

  /** `s[start..end]` is a line as a read cuts it: at its line feed, at the limit or where the stream ends. */
  ghost predicate IsLine(s: Bytes, limit: nat, start: nat, end: nat) {
    && start < end <= |s| && end <= limit
    && (start == 0 || s[start - 1] == LF)
    && (forall k :: start <= k < end - 1 ==> s[k] != LF)
    && (s[end - 1] == LF || end == limit || end == |s|)
  }

  /** A line that is not UTF-8, with no request completed before it. */
  ghost predicate IsBadLine(utf8: Utf8, s: Bytes, limit: nat, start: nat, end: nat) {
    IsLine(s, limit, start, end) && !utf8(s[start..end]) && !CompletesWithin(s, start)
  }

  ghost predicate MeetsBadLine(utf8: Utf8, s: Bytes, limit: nat) {
    exists start: nat, end: nat :: IsBadLine(utf8, s, limit, start, end)
  }

  predicate EndsBetweenLines(s: Bytes) {
    s == [] || s[|s| - 1] == LF
  }

  /** How a read of `s` under `limit` ends, told apart by the bytes alone. */
  ghost function Classification(utf8: Utf8, s: Bytes, limit: nat, attributes: Attributes): ReadResult {
    if MeetsBadLine(utf8, s, limit) then Failed(InvalidUtf8)
    else if CompletesWithin(s, limit) then Request(attributes)
    else if |s| >= limit then Failed(TooLarge)
    else if EndsBetweenLines(s) then EndOfStream
    else Failed(ClosedMidRequest)
  }

  /** Equal up to a request's attributes. */
  ghost predicate SameEnding(r: ReadResult, q: ReadResult) {
    r == q || (r.Request? && q.Request?)
  }

  ghost predicate ReadIsClassified(utf8: Utf8, s: Bytes, limit: nat, attributes: Attributes) {
    SameEnding(Reading(utf8, s, limit, attributes).0, Classification(utf8, s, limit, attributes))
  }

  /** A line is either the first or begins after it. */
  lemma LinesComeInOrder(s: Bytes, limit: nat, start: nat, end: nat)
    requires IsLine(s, limit, start, end)
    ensures var n := |Line(s, limit)|;
            IsLine(s, limit, 0, n) && if start == 0 then end == n else s[n - 1] == LF && n <= start
  {
    LineShape(s, limit);
    var line := Line(s, limit);
    assert s[|line| - 1] == line[|line| - 1];
  }

  lemma UnfinishedLineIsClassified(utf8: Utf8, s: Bytes, limit: nat, attributes: Attributes)
    requires Line(s, limit) == [] || Line(s, limit)[|Line(s, limit)| - 1] != LF
    ensures ReadIsClassified(utf8, s, limit, attributes)
  {
    LineShape(s, limit);
    var line := Line(s, limit);
    assert forall k :: 0 <= k < |line| ==> s[k] == line[k];
    assert forall k :: 0 <= k < |line| ==> s[k] != LF;
    assert !CompletesWithin(s, limit);
    OnlyFirstLineCanBeBad(utf8, s, limit);
  }

  /** When no line that counts follows the first, the first decides. */
  lemma OnlyFirstLineCanBeBad(utf8: Utf8, s: Bytes, limit: nat)
    requires var line := Line(s, limit);
             line == [] || line[|line| - 1] != LF || TrimEnd(line) == []
    ensures MeetsBadLine(utf8, s, limit) <==> Line(s, limit) != [] && !utf8(Line(s, limit))
  {
    var line := Line(s, limit);
    LineShape(s, limit);
    TrimmedToNothing(line, |line|);
    assert forall k :: 0 <= k < |line| ==> s[k] == line[k];
    if line != [] && line[|line| - 1] == LF {
      assert BlankLine(s, 0, |line|);
    }
    if line != [] && !utf8(line) {
      assert IsBadLine(utf8, s, limit, 0, |line|);
    }
    if MeetsBadLine(utf8, s, limit) {
      var start: nat, end: nat :| IsBadLine(utf8, s, limit, start, end);
      LinesComeInOrder(s, limit, start, end);
    }
  }

  lemma BlankLineIsClassified(utf8: Utf8, s: Bytes, limit: nat, attributes: Attributes)
    requires Line(s, limit) != [] && Line(s, limit)[|Line(s, limit)| - 1] == LF && TrimEnd(Line(s, limit)) == []
    ensures ReadIsClassified(utf8, s, limit, attributes)
  {
    var line := Line(s, limit);
    LineShape(s, limit);
    TrimmedToNothing(line, |line|);
    assert forall k :: 0 <= k < |line| ==> s[k] == line[k];
    assert BlankLine(s, 0, |line|);
    OnlyFirstLineCanBeBad(utf8, s, limit);
  }

  lemma LineAfterFirst(utf8: Utf8, s: Bytes, limit: nat, n: nat, start: nat, end: nat)
    requires OpensWithLine(s, n) && n <= limit && n <= start < end
    ensures IsBadLine(utf8, s, limit, start, end) <==> IsBadLine(utf8, s[n..], limit - n, start - n, end - n)
  {
    if end <= |s| {
      CompletionIsAfterLine(s, n, start);
      assert s[start..end] == s[n..][start - n..end - n];
      assert forall k :: start <= k < end ==> s[k] == s[n..][k - n];
    }
  }

  /** Past a line of text that is not blank, a bad line is met if what remains meets one. */
  lemma BadLineIsAfterLine(utf8: Utf8, s: Bytes, limit: nat)
    requires var line := Line(s, limit); line != [] && utf8(line) && OpensWithLine(s, |line|)
    ensures var n := |Line(s, limit)|;
            MeetsBadLine(utf8, s, limit) <==> MeetsBadLine(utf8, s[n..], limit - n)
  {
    var n := |Line(s, limit)|;
    if MeetsBadLine(utf8, s, limit) {
      var start: nat, end: nat :| IsBadLine(utf8, s, limit, start, end);
      LinesComeInOrder(s, limit, start, end);
      LineAfterFirst(utf8, s, limit, n, start, end);
    }
    if MeetsBadLine(utf8, s[n..], limit - n) {
      var start: nat, end: nat :| IsBadLine(utf8, s[n..], limit - n, start, end);
      LineAfterFirst(utf8, s, limit, n, start + n, end + n);
    }
  }

  lemma ClassificationPastLine(utf8: Utf8, s: Bytes, limit: nat, attributes: Attributes, attributes': Attributes)
    requires var line := Line(s, limit); line != [] && utf8(line) && OpensWithLine(s, |line|)
    ensures var n := |Line(s, limit)|;
            SameEnding(Classification(utf8, s[n..], limit - n, attributes'), Classification(utf8, s, limit, attributes))
  {
    var n := |Line(s, limit)|;
    BadLineIsAfterLine(utf8, s, limit);
    CompletionIsAfterLine(s, n, limit);
    assert EndsBetweenLines(s[n..]) <==> EndsBetweenLines(s);
  }

  lemma OrdinaryLineIsClassified(utf8: Utf8, s: Bytes, limit: nat, attributes: Attributes)
    requires Line(s, limit) != [] && Line(s, limit)[|Line(s, limit)| - 1] == LF && TrimEnd(Line(s, limit)) != []
    requires ReadIsClassified(utf8, s[|Line(s, limit)|..], limit - |Line(s, limit)|,
                              WithLine(attributes, TrimEnd(Line(s, limit))))
    ensures ReadIsClassified(utf8, s, limit, attributes)
  {
    ReadingMovesOn(utf8, s, limit, attributes);
    LineOpens(s, limit);
    if utf8(Line(s, limit)) {
      ClassificationPastLine(utf8, s, limit, attributes, WithLine(attributes, TrimEnd(Line(s, limit))));
    } else {
      LineShape(s, limit);
      assert IsBadLine(utf8, s, limit, 0, |Line(s, limit)|);
    }
  }

  /**
   Every read of every stream ends in one of five ways: in the encoding error exactly when some line, as
   its line feed, the limit or the stream's end cuts it, is not UTF-8 and no blank line has completed a
   request before it; otherwise in a request exactly when a blank line completes one within the limit;
   otherwise in the size error exactly when the limit is used up; otherwise at the end of the stream,
   between lines or within one. An oversized request is never read in part.
   */
  lemma {:induction false} ReadsAreClassified(utf8: Utf8, s: Bytes, limit: nat, attributes: Attributes)
    ensures ReadIsClassified(utf8, s, limit, attributes)
    decreases limit
  {
    var line := Line(s, limit);
    if line == [] || line[|line| - 1] != LF {
      UnfinishedLineIsClassified(utf8, s, limit, attributes);
    } else if TrimEnd(line) == [] {
      BlankLineIsClassified(utf8, s, limit, attributes);
    } else {
      ReadsAreClassified(utf8, s[|line|..], limit - |line|, WithLine(attributes, TrimEnd(line)));
      OrdinaryLineIsClassified(utf8, s, limit, attributes);
    }
  }

  // ---------- requests over the limit ----------

  /** What follows the last line feed, or everything when there is none. */
  function Unfinished(s: Bytes): Bytes {
    if s == [] || s[|s| - 1] == LF then [] else Unfinished(s[..|s| - 1]) + [s[|s| - 1]]
  }

  lemma {:induction false} UnfinishedLineIsItself(s: Bytes)
    requires LF !in s
    ensures Unfinished(s) == s
  {
    if s != [] {
      UnfinishedLineIsItself(s[..|s| - 1]);
      assert s == s[..|s| - 1] + [s[|s| - 1]];
    }
  }

  lemma {:induction false} UnfinishedIsAfterLine(line: Bytes, s: Bytes)
    requires line != [] && line[|line| - 1] == LF
    ensures Unfinished(line + s) == Unfinished(s)
  {
    if s == [] {
      assert line + s == line;
    } else {
      UnfinishedIsAfterLine(line, s[..|s| - 1]);
      assert (line + s)[..|line + s| - 1] == line + s[..|s| - 1];
    }
  }

  /** The part of a printed request's line that a read under `limit` is left with. */
  function CutLine(request: seq<Attribute>, limit: nat): Bytes
    requires limit <= |Print(request)|
  {
    Unfinished(Print(request)[..limit])
  }

  /** A line that runs past the limit is cut at a byte, and is judged as text before its size is. */
  lemma OverlongLineIsCutAtAByte(utf8: Utf8, s: Bytes, limit: nat, attributes: Attributes)
    requires 0 < limit <= |s| && LF !in s[..limit]
    ensures Reading(utf8, s, limit, attributes).0 == Failed(if utf8(s[..limit]) then TooLarge else InvalidUtf8)
  {
    LineShape(s, limit);
    var line := Line(s, limit);
    assert forall k :: 0 <= k < |line| ==> line[k] == s[..limit][k];
    assert line == s[..limit];
  }

  /** How a request that does not fit ends, when `cut` is what the limit leaves of a line. */
  function Refusal(utf8: Utf8, cut: Bytes): ReadResult {
    Failed(if cut == [] || utf8(cut) then TooLarge else InvalidUtf8)
  }

  lemma CutAttribute(a: Attribute, rest: Bytes, limit: nat)
    requires Printable(a) && limit < |PrintAttribute(a)|
    ensures (PrintAttribute(a) + rest)[..limit] == PrintAttribute(a)[..limit]
    ensures LF !in PrintAttribute(a)[..limit]
  {
  }

  lemma CutAttributeIsRefused(utf8: Utf8, a: Attribute, more: Bytes, limit: nat, attributes: Attributes)
    requires Printable(a) && limit < |PrintAttribute(a)|
    ensures Reading(utf8, PrintAttribute(a) + more, limit, attributes).0
         == Refusal(utf8, PrintAttribute(a)[..limit])
  {
    CutAttribute(a, more, limit);
    if limit > 0 {
      OverlongLineIsCutAtAByte(utf8, PrintAttribute(a) + more, limit, attributes);
    }
  }

  /** Where a printed request is cut: within its first attribute, or as what follows it is. */
  lemma CutLineOfFirst(request: seq<Attribute>, limit: nat)
    requires request != [] && Printable(request[0]) && limit <= |Print(request)|
    ensures var a, tail := request[0], request[1..];
            if |PrintAttribute(a)| <= limit
            then |Print(tail)| == |Print(request)| - |PrintAttribute(a)|
                 && CutLine(request, limit) == CutLine(tail, limit - |PrintAttribute(a)|)
            else CutLine(request, limit) == PrintAttribute(a)[..limit]
  {
    var printed, tail := PrintAttribute(request[0]), request[1..];
    if |printed| <= limit {
      assert Print(request)[..limit] == printed + Print(tail)[..limit - |printed|];
      UnfinishedIsAfterLine(printed, Print(tail)[..limit - |printed|]);
    } else {
      CutAttribute(request[0], Print(tail), limit);
      UnfinishedLineIsItself(printed[..limit]);
    }
  }

  /**
   A request that does not fit is never accepted, whole or in part. It ends in the size error exactly when
   what the limit leaves of its last line is text, and in the encoding error otherwise. With the round
   trip above: a request is read back if and only if it fits.
   */
  lemma {:induction false} OversizedRequestsAreRefused(utf8: Utf8, request: seq<Attribute>, more: Bytes, limit: nat,
                                                       attributes: Attributes)
    requires Sendable(utf8, request) && limit < |Print(request)|
    ensures Reading(utf8, Print(request) + more, limit, attributes).0 == Refusal(utf8, CutLine(request, limit))
    decreases request
  {
    if request != [] {
      var a, tail := request[0], request[1..];
      FirstAttributeIsSendable(utf8, request);
      CutLineOfFirst(request, limit);
      if |PrintAttribute(a)| <= limit {
        var limit', attributes' := limit - |PrintAttribute(a)|, attributes[a.key := a.value];
        var s, s' := Print(request) + more, Print(tail) + more;
        assert Reading(utf8, s, limit, attributes) == Reading(utf8, s', limit', attributes') by {
          FirstAttributeIsRead(utf8, request, more, limit, attributes);
        }
        OversizedRequestsAreRefused(utf8, tail, more, limit', attributes');
      } else {
        CutAttributeIsRefused(utf8, a, Print(tail) + more, limit, attributes);
        Regrouped(PrintAttribute(a), Print(tail), more);
      }
    }
  }
}
