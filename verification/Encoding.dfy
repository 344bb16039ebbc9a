/**
 UTF-8 as RFC 3629 defines it, and what it makes of the request reader's size limit (src/protocol.rs).
 */
module Encoding {
  import opened Protocol

  /** A byte that continues a character. */
  predicate IsContinuation(b: Byte) {
    0x80 <= b <= 0xBF
  }

  /** The second bytes that may follow a lead byte: no overlong forms, no surrogates, nothing past U+10FFFF. */
  predicate IsSecond(lead: Byte, second: Byte) {
    && IsContinuation(second)
    && (lead == 0xE0 ==> second >= 0xA0) && (lead == 0xED ==> second <= 0x9F)
    && (lead == 0xF0 ==> second >= 0x90) && (lead == 0xF4 ==> second <= 0x8F)
  }

  /** How many bytes a character with this lead byte takes, or 0 for a byte that leads none. */
  function LengthByLead(lead: Byte): (n: nat)
    ensures n <= 4 && (n > 0 ==> !IsContinuation(lead))
  {
    if lead <= 0x7F then 1
    else if 0xC2 <= lead <= 0xDF then 2
    else if 0xE0 <= lead <= 0xEF then 3
    else if 0xF0 <= lead <= 0xF4 then 4
    else 0
  }

  /** `s` opens with a character (section 4 of RFC 3629). */
  predicate OpensWithCharacter(s: Bytes) {
    && s != []
    && var n := LengthByLead(s[0]);
       && 0 < n <= |s|
       && (n > 1 ==> IsSecond(s[0], s[1]))
       && (n > 2 ==> IsContinuation(s[2]))
       && (n > 3 ==> IsContinuation(s[3]))
  }

  predicate IsUtf8(s: Bytes) {
    s == [] || (OpensWithCharacter(s) && IsUtf8(s[LengthByLead(s[0])..]))
  }

  lemma OpeningIsKept(s: Bytes, t: Bytes)
    requires OpensWithCharacter(s)
    ensures OpensWithCharacter(s + t)
  {
    assert s <= s + t;
  }

  lemma DropWithinFirst(s: Bytes, t: Bytes, n: nat)
    requires n <= |s|
    ensures (s + t)[n..] == s[n..] + t
  {
  }

  /** Two texts make a text. */
  lemma {:induction false} TextsJoin(s: Bytes, t: Bytes)
    requires IsUtf8(s) && IsUtf8(t)
    ensures IsUtf8(s + t)
  {
    if s == [] {
      assert s + t == t;
    } else {
      var n := LengthByLead(s[0]);
      TextsJoin(s[n..], t);
      OpeningIsKept(s, t);
      DropWithinFirst(s, t, n);
    }
  }

  // ---------- what UTF-8 encodes ----------

  /** A Unicode scalar value: a code point that is no surrogate. */
  predicate IsScalar(c: nat) {
    c < 0xD800 || 0xE000 <= c <= 0x10FFFF
  }

  /** The byte for the lowest six bits of `c`. */
  function Low(c: nat): Byte {
    (0x80 + c % 0x40) as Byte
  }

  /** The encoding of one character (section 3 of RFC 3629). */
  function Encode(c: nat): Bytes
    requires IsScalar(c)
  {
    if c < 0x80 then [c as Byte]
    else if c < 0x800 then [(0xC0 + c / 0x40) as Byte, Low(c)]
    else if c < 0x10000 then [(0xE0 + c / 0x1000) as Byte, Low(c / 0x40), Low(c)]
    else [(0xF0 + c / 0x40000) as Byte, Low(c / 0x1000), Low(c / 0x40), Low(c)]
  }

  predicate AreScalars(text: seq<nat>) {
    forall i :: 0 <= i < |text| ==> IsScalar(text[i])
  }

  function EncodeAll(text: seq<nat>): Bytes
    requires AreScalars(text)
  {
    if text == [] then [] else Encode(text[0]) + EncodeAll(text[1..])
  }

  lemma ThreeBytesFit(c: nat)
    requires IsScalar(c) && 0x800 <= c < 0x10000
    ensures c / 0x1000 < 0x10
    ensures c / 0x1000 == 0 ==> c / 0x40 % 0x40 >= 0x20
    ensures c / 0x1000 == 0xD ==> c / 0x40 % 0x40 < 0x20
  {
    SixBitsAtATime(c);
  }

  lemma FourBytesFit(c: nat)
    requires IsScalar(c) && 0x10000 <= c
    ensures c / 0x40000 <= 4
    ensures c / 0x40000 == 0 ==> c / 0x1000 % 0x40 >= 0x10
    ensures c / 0x40000 == 4 ==> c / 0x1000 % 0x40 < 0x10
  {
    SixBitsAtATime(c);
  }

  lemma EncodingIsCharacter(c: nat)
    requires IsScalar(c)
    ensures OpensWithCharacter(Encode(c)) && LengthByLead(Encode(c)[0]) == |Encode(c)|
  {
    if 0x800 <= c < 0x10000 {
      ThreeBytesFit(c);
    } else if 0x10000 <= c {
      FourBytesFit(c);
    }
  }

  lemma EncodingsOpen(c: nat, s: Bytes)
    requires IsScalar(c)
    ensures OpensWithCharacter(Encode(c) + s) && LengthByLead((Encode(c) + s)[0]) == |Encode(c)|
  {
    EncodingIsCharacter(c);
    OpeningIsKept(Encode(c), s);
  }

  /** The six bits of a continuation byte. */
  function Six(b: Byte): (n: nat)
    requires IsContinuation(b)
    ensures n < 0x40 && Low(n) == b
  {
    b as nat - 0x80
  }

  /** `high` followed by six more bits. */
  function Joined(high: nat, low: Byte): (c: nat)
    requires IsContinuation(low)
    ensures c / 0x40 == high && Low(c) == low
  {
    high * 0x40 + Six(low)
  }

  lemma SixBitsAtATime(c: nat)
    ensures c / 0x1000 == c / 0x40 / 0x40 && c / 0x40000 == c / 0x40 / 0x40 / 0x40
  {
  }

  /** The character that `s` opens with. */
  function Decode(s: Bytes): nat
    requires OpensWithCharacter(s)
  {
    var n := LengthByLead(s[0]);
    if n == 1 then s[0] as nat
    else if n == 2 then Joined(s[0] as nat - 0xC0, s[1])
    else if n == 3 then Joined(Joined(s[0] as nat - 0xE0, s[1]), s[2])
    else Joined(Joined(Joined(s[0] as nat - 0xF0, s[1]), s[2]), s[3])
  }

  lemma DecodedShort(s: Bytes)
    requires OpensWithCharacter(s) && LengthByLead(s[0]) <= 2
    ensures IsScalar(Decode(s)) && Encode(Decode(s)) == s[..LengthByLead(s[0])]
  {
  }

  lemma DecodedThree(s: Bytes)
    requires OpensWithCharacter(s) && LengthByLead(s[0]) == 3
    ensures IsScalar(Decode(s)) && Encode(Decode(s)) == s[..3]
  {
    SixBitsAtATime(Decode(s));
  }

  lemma DecodedFour(s: Bytes)
    requires OpensWithCharacter(s) && LengthByLead(s[0]) == 4
    ensures IsScalar(Decode(s)) && Encode(Decode(s)) == s[..4]
  {
    SixBitsAtATime(Decode(s));
  }

  lemma DecodedIsEncoded(s: Bytes)
    requires OpensWithCharacter(s)
    ensures IsScalar(Decode(s)) && Encode(Decode(s)) == s[..LengthByLead(s[0])]
  {
    if LengthByLead(s[0]) <= 2 {
      DecodedShort(s);
    } else if LengthByLead(s[0]) == 3 {
      DecodedThree(s);
    } else {
      DecodedFour(s);
    }
  }

  lemma {:induction false} EncodingsAreUtf8(text: seq<nat>)
    requires AreScalars(text)
    ensures IsUtf8(EncodeAll(text))
  {
    if text != [] {
      var e, rest := Encode(text[0]), EncodeAll(text[1..]);
      EncodingsAreUtf8(text[1..]);
      EncodingsOpen(text[0], rest);
      assert (e + rest)[|e|..] == rest;
    }
  }

  lemma EncodingGrows(s: Bytes, rest: seq<nat>)
    requires OpensWithCharacter(s) && AreScalars(rest) && EncodeAll(rest) == s[LengthByLead(s[0])..]
    ensures IsScalar(Decode(s)) && AreScalars([Decode(s)] + rest) && EncodeAll([Decode(s)] + rest) == s
  {
    DecodedIsEncoded(s);
    assert ([Decode(s)] + rest)[1..] == rest;
    assert s == s[..LengthByLead(s[0])] + s[LengthByLead(s[0])..];
  }

  lemma {:induction false} Utf8IsEncoded(s: Bytes) returns (text: seq<nat>)
    requires IsUtf8(s)
    ensures AreScalars(text) && EncodeAll(text) == s
  {
    if s == [] {
      text := [];
    } else {
      var rest := Utf8IsEncoded(s[LengthByLead(s[0])..]);
      EncodingGrows(s, rest);
      text := [Decode(s)] + rest;
    }
  }

  /** The byte grammar of UTF-8 accepts exactly the encodings of sequences of Unicode scalar values. */
  lemma Utf8IsWhatItEncodes(s: Bytes)
    ensures IsUtf8(s) <==> exists text :: AreScalars(text) && EncodeAll(text) == s
  {
    if IsUtf8(s) {
      var text := Utf8IsEncoded(s);
    }
    if text :| AreScalars(text) && EncodeAll(text) == s {
      EncodingsAreUtf8(text);
    }
  }

  // ---------- cutting text ----------

  /** Text that is cut at byte `k` is text exactly when the cut does not fall inside a character. */
  lemma {:induction false} CutFallsBetweenCharacters(s: Bytes, k: nat)
    requires IsUtf8(s) && k < |s|
    ensures IsUtf8(s[..k]) <==> !IsContinuation(s[k])
  {
    var n := LengthByLead(s[0]);
    if n <= k {
      CutFallsBetweenCharacters(s[n..], k - n);
      assert OpensWithCharacter(s[..k]);
      assert s[..k][n..] == s[n..][..k - n];
    } else if 0 < k {
      assert s[..k][0] == s[0];
    }
  }

  // ---------- requests ----------

  /** Keys and values that are text can be sent. */
  lemma TextIsSendable(request: seq<Attribute>)
    requires forall a :: a in request ==> Printable(a) && IsUtf8(a.key) && IsUtf8(a.value)
    ensures Sendable(IsUtf8, request)
  {
    LineFeedIsText();
    forall a | a in request
      ensures IsUtf8(PrintAttribute(a))
    {
      TextsJoin(a.key, [EQUALS]);
      TextsJoin(a.key + [EQUALS], a.value);
      TextsJoin(a.key + [EQUALS] + a.value, [LF]);
    }
  }

  lemma LineFeedIsText()
    ensures IsUtf8([LF]) && IsUtf8([EQUALS])
  {
    assert [LF][1..] == [] && [EQUALS][1..] == [];
  }

  lemma {:induction false} CutIsSeenInNextByte(request: seq<Attribute>, limit: nat)
    requires Sendable(IsUtf8, request) && limit < |Print(request)|
    ensures IsUtf8(CutLine(request, limit)) <==> !IsContinuation(Print(request)[limit])
  {
    if request == [] {
      assert Print(request)[..limit] == [];
    } else {
      FirstAttributeIsSendable(IsUtf8, request);
      CutLineOfFirst(request, limit);
      var printed := PrintAttribute(request[0]);
      if |printed| <= limit {
        CutIsSeenInNextByte(request[1..], limit - |printed|);
      } else {
        CutFallsBetweenCharacters(printed, limit);
      }
    }
  }

  /**
   When the size error is missed, exactly: a request over the limit ends in the encoding error instead if
   and only if its first byte past the limit continues a character.
   */
  lemma SizeErrorIsMissedInsideACharacter(request: seq<Attribute>, more: Bytes, limit: nat, attributes: Attributes)
    requires Sendable(IsUtf8, request) && limit < |Print(request)|
    ensures Reading(IsUtf8, Print(request) + more, limit, attributes).0
         == Failed(if IsContinuation(Print(request)[limit]) then InvalidUtf8 else TooLarge)
  {
    OversizedRequestsAreRefused(IsUtf8, request, more, limit, attributes);
    CutIsSeenInNextByte(request, limit);
  }

  // ---------- a request that misses the size error ----------

  const X: Byte := 120

  // The letter e with an acute accent.
  const E_ACUTE: Bytes := [0xC3, 0xA9]

  /** One attribute whose last character straddles the limit. */
  function Straddling(): seq<Attribute> {
    [Ending(seq(65533, _ => X))]
  }

  function Ending(xs: Bytes): Attribute {
    Attribute([X], xs + E_ACUTE)
  }

  lemma {:induction false} RunOfXIsText(s: Bytes)
    requires forall k :: 0 <= k < |s| ==> s[k] == X
    ensures IsUtf8(s)
  {
    if s != [] {
      RunOfXIsText(s[1..]);
    }
  }

  lemma EndingIsSendable(xs: Bytes)
    requires forall k :: 0 <= k < |xs| ==> xs[k] == X
    ensures Sendable(IsUtf8, [Ending(xs)])
  {
    RunOfXIsText([X]);
    RunOfXIsText(xs);
    assert IsUtf8(E_ACUTE) by {
      assert OpensWithCharacter(E_ACUTE) && E_ACUTE[2..] == [];
    }
    TextsJoin(xs, E_ACUTE);
    TextIsSendable([Ending(xs)]);
  }

  lemma EndingIsPrinted(xs: Bytes)
    ensures |Print([Ending(xs)])| == |xs| + 6 && Print([Ending(xs)])[|xs| + 3] == E_ACUTE[1]
  {
    var a := Ending(xs);
    assert [a][1..] == [];
    assert Print([a]) == PrintAttribute(a) + [LF];
  }

  /** The request is text, well formed and too large, and is reported as bad text. */
  lemma ARequestCanMissTheSizeError(more: Bytes)
    ensures Sendable(IsUtf8, Straddling()) && |Print(Straddling())| == 65539
    ensures Reading(IsUtf8, Print(Straddling()) + more, MAX_REQUEST_BYTES, map[]).0 == Failed(InvalidUtf8)
  {
    var xs := seq(65533, _ => X);
    EndingIsSendable(xs);
    EndingIsPrinted(xs);
    SizeErrorIsMissedInsideACharacter(Straddling(), more, MAX_REQUEST_BYTES, map[]);
  }
}
