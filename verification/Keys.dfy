/**
 The printer of bucket keys (src/limiter.rs) and a parser that inverts it. The prefix is printed as
 it is, so only a parser that works from the right can tell the parts apart.
 */
module Keys {
  import opened Wrappers

  const SASL_KIND := "sasl"
  // The key type and the schema version that follow every prefix.
  const MARKER := ":bucket:v1"

  // ---------- decimal numbers ----------

  function Digit(d: nat): char
    requires d < 10
  {
    "0123456789"[d]
  }

  predicate IsDigit(c: char) { '0' <= c <= '9' }

  function DigitValue(c: char): nat
    requires IsDigit(c)
  {
    c as nat - '0' as nat
  }

  function Decimal(n: nat): string {
    if n < 10 then [Digit(n)] else Decimal(n / 10) + [Digit(n % 10)]
  }

  function ParseDecimal(s: string): Option<nat> {
    if s == "" || !IsDigit(s[|s| - 1]) then None
    else if |s| == 1 then Some(DigitValue(s[0]))
    else match ParseDecimal(s[..|s| - 1])
      case None => None
      case Some(high) => Some(10 * high + DigitValue(s[|s| - 1]))
  }

  lemma {:induction false} DecimalRoundTrip(n: nat)
    ensures ParseDecimal(Decimal(n)) == Some(n)
    ensures ':' !in Decimal(n)
  {
    if n >= 10 {
      DecimalRoundTrip(n / 10);
      assert Decimal(n)[..|Decimal(n)| - 1] == Decimal(n / 10);
    }
  }

  /** Numbers are written in decimal digits, without leading zeros. */
  lemma DecimalText(n: nat, d: nat)
    requires d < 10
    ensures Decimal(d) == [('0' as int + d) as char]
    ensures n > 0 ==> Decimal(10 * n + d) == Decimal(n) + [('0' as int + d) as char]
  {
    assert (10 * n + d) / 10 == n && (10 * n + d) % 10 == d;
  }

  function Zeros(n: nat): string {
    if n == 0 then "" else Zeros(n - 1) + "0"
  }

  lemma DigitIsItsValue(c: char)
    requires IsDigit(c)
    ensures DigitValue(c) < 10 && Digit(DigitValue(c)) == c
  {
  }

  lemma ValueIsItsDigit(d: nat)
    requires d < 10
    ensures IsDigit(Digit(d)) && DigitValue(Digit(d)) == d
  {
  }

  /** A number followed by one more digit is read as ten times the number plus the digit. */
  lemma DigitIsRead(s: string, c: char)
    requires IsDigit(c) && (s == "" || ParseDecimal(s).Some?)
    ensures ParseDecimal(s + [c]) == Some((if s == "" then 0 else 10 * ParseDecimal(s).value) + DigitValue(c))
  {
    var t := s + [c];
    assert t[..|t| - 1] == s && t[|t| - 1] == c;
  }

  lemma {:induction false} ZerosAreZero(z: nat)
    ensures ParseDecimal(Zeros(z)) == if z == 0 then None else Some(0)
  {
    if z > 0 {
      ZerosAreZero(z - 1);
      DigitIsRead(Zeros(z - 1), '0');
    }
  }

  lemma Reassociated(s: string, t: string, c: char)
    ensures s + (t + [c]) == (s + t) + [c]
  {
  }

  /** Leading zeros make no difference. */
  lemma {:induction false} PaddedDecimalIsRead(z: nat, n: nat)
    ensures ParseDecimal(Zeros(z) + Decimal(n)) == Some(n)
  {
    ValueIsItsDigit(n % 10);
    if n < 10 {
      ZerosAreZero(z);
      DigitIsRead(Zeros(z), Digit(n));
    } else {
      PaddedDecimalIsRead(z, n / 10);
      Reassociated(Zeros(z), Decimal(n / 10), Digit(n % 10));
      DigitIsRead(Zeros(z) + Decimal(n / 10), Digit(n % 10));
    }
  }

  lemma PaddedDecimalGrows(z: nat, n: nat, c: char) returns (z': nat)
    requires IsDigit(c)
    ensures Zeros(z) + Decimal(n) + [c] == Zeros(z') + Decimal(10 * n + DigitValue(c))
  {
    DigitIsItsValue(c);
    if n == 0 {
      z' := z + 1;
    } else {
      z' := z;
      DecimalText(n, DigitValue(c));
      Reassociated(Zeros(z), Decimal(n), c);
    }
  }

  /** Whatever is read as a number is its decimal digits, with leading zeros or without. */
  lemma {:induction false} ReadIsPaddedDecimal(s: string, n: nat) returns (z: nat)
    requires ParseDecimal(s) == Some(n)
    ensures s == Zeros(z) + Decimal(n)
  {
    var init, last := s[..|s| - 1], s[|s| - 1];
    assert s == init + [last];
    if init == "" {
      z := 0;
      DigitIsItsValue(last);
    } else {
      var high := ParseDecimal(init).value;
      z := ReadIsPaddedDecimal(init, high);
      z := PaddedDecimalGrows(z, high, last);
    }
  }

  // ---------- escaping ----------

  /** `str::replace` of one character. */
  function Replace(s: string, c: char, replacement: string): string {
    if s == "" then "" else (if s[0] == c then replacement else [s[0]]) + Replace(s[1..], c, replacement)
  }

  /** `escape_identity_value`: two passes, or none when neither character occurs. */
  function Escape(value: string): string {
    if '\\' in value || ':' in value then Replace(Replace(value, '\\', "\\\\"), ':', "\\:") else value
  }

  function EscapeCharacter(c: char): string {
    if c == '\\' || c == ':' then ['\\', c] else [c]
  }

  /** Escaping in a single pass. */
  function EscapeEach(value: string): string {
    if value == "" then "" else EscapeCharacter(value[0]) + EscapeEach(value[1..])
  }

  function Unescape(s: string): string {
    if s == "" then ""
    else if s[0] == '\\' && |s| > 1 then [s[1]] + Unescape(s[2..])
    else [s[0]] + Unescape(s[1..])
  }

  lemma {:induction false} ReplaceDistributes(s: string, t: string, c: char, replacement: string)
    ensures Replace(s + t, c, replacement) == Replace(s, c, replacement) + Replace(t, c, replacement)
  {
    if s == "" {
      assert s + t == t;
    } else {
      ReplaceDistributes(s[1..], t, c, replacement);
      assert (s + t)[1..] == s[1..] + t;
      var head := if s[0] == c then replacement else [s[0]];
      var tail, rest := Replace(s[1..], c, replacement), Replace(t, c, replacement);
      assert Replace(s + t, c, replacement) == head + (tail + rest);
      assert head + (tail + rest) == (head + tail) + rest;
    }
  }

  lemma {:induction false} TwoPassesAreOne(value: string)
    ensures Replace(Replace(value, '\\', "\\\\"), ':', "\\:") == EscapeEach(value)
  {
    if value != "" {
      TwoPassesAreOne(value[1..]);
      var head := if value[0] == '\\' then "\\\\" else [value[0]];
      ReplaceDistributes(head, Replace(value[1..], '\\', "\\\\"), ':', "\\:");
      assert Replace(head, ':', "\\:") == EscapeCharacter(value[0]) by {
        assert head[1..] == if value[0] == '\\' then "\\" else "";
      }
    }
  }

  lemma {:induction false} NothingToEscape(value: string)
    requires '\\' !in value && ':' !in value
    ensures EscapeEach(value) == value
  {
    if value != "" {
      NothingToEscape(value[1..]);
    }
  }

  /** The two replacement passes amount to escaping each character once, and the short cut is exact. */
  lemma EscapeIsPerCharacter(value: string)
    ensures Escape(value) == EscapeEach(value)
  {
    if '\\' in value || ':' in value {
      TwoPassesAreOne(value);
    } else {
      NothingToEscape(value);
    }
  }

  /** The escaped text, character by character: a backslash goes before each backslash and each colon. */
  lemma EscapedText(c: char, value: string)
    ensures Escape("") == ""
    ensures Escape([c] + value)
         == (if c == '\\' then "\\\\" else if c == ':' then "\\:" else [c]) + Escape(value)
  {
    EscapeIsPerCharacter("");
    EscapeIsPerCharacter(value);
    EscapeIsPerCharacter([c] + value);
    assert ([c] + value)[1..] == value;
  }

  lemma {:induction false} UnescapeInvertsEscape(value: string)
    ensures Unescape(EscapeEach(value)) == value
  {
    if value != "" {
      UnescapeInvertsEscape(value[1..]);
      var head, tail := EscapeCharacter(value[0]), EscapeEach(value[1..]);
      assert (head + tail)[|head|..] == tail;
    }
  }

  /** Every colon follows a backslash. */
  ghost predicate ColonsEscaped(s: string) {
    forall i :: 0 <= i < |s| && s[i] == ':' ==> i > 0 && s[i - 1] == '\\'
  }

  lemma {:induction false} EscapedColonsFollowBackslashes(value: string)
    ensures ColonsEscaped(EscapeEach(value))
  {
    if value != "" {
      EscapedColonsFollowBackslashes(value[1..]);
      var head, tail := EscapeCharacter(value[0]), EscapeEach(value[1..]);
      forall i | 0 <= i < |head + tail| && (head + tail)[i] == ':'
        ensures i > 0 && (head + tail)[i - 1] == '\\'
      {
        if i >= |head| {
          assert tail[i - |head|] == ':';
        }
      }
    }
  }

  // ---------- the printer ----------

  /** `identity`; the kind must contain neither a backslash nor a colon. */
  function Identity(kind: string, value: string): string {
    kind + ":" + Escape(value)
  }

  function BucketKey(prefix: string, identity: string, size: nat): string {
    prefix + MARKER + ":" + identity + ":" + Decimal(size)
  }

  predicate ValidKind(kind: string) {
    '\\' !in kind && ':' !in kind
  }

  // ---------- the parser ----------

  /** Splits at the last colon; `bare` passes over colons that follow a backslash. */
  function SplitLast(s: string, bare: bool): Option<(string, string)> {
    if s == "" then None
    else
      var n := |s| - 1;
      if s[n] == ':' && !(bare && n > 0 && s[n - 1] == '\\') then Some((s[..n], ""))
      else match SplitLast(s[..n], bare)
        case None => None
        case Some((left, right)) => Some((left, right + [s[n]]))
  }

  function StripSuffix(s: string, suffix: string): Option<string> {
    if |suffix| <= |s| && s[|s| - |suffix|..] == suffix then Some(s[..|s| - |suffix|]) else None
  }

  datatype KeyParts = KeyParts(prefix: string, kind: string, value: string, size: nat)

  function ParseKey(key: string): Option<KeyParts> {
    match SplitLast(key, false)
    case None => None
    case Some((beforeSize, sizeText)) =>
      match (SplitLast(beforeSize, true), ParseDecimal(sizeText))
      case (Some((beforeValue, escaped)), Some(size)) =>
        (match SplitLast(beforeValue, false)
         case None => None
         case Some((beforeKind, kind)) =>
           match StripSuffix(beforeKind, MARKER)
           case None => None
           case Some(prefix) => Some(KeyParts(prefix, kind, Unescape(escaped), size)))
      case _ => None
  }

  /** No colon of `right` can be taken for the separator in `left + ":" + right`. */
  ghost predicate HidesColons(left: string, right: string, bare: bool) {
    if bare then ColonsEscaped(right) && (left == "" || left[|left| - 1] != '\\') else ':' !in right
  }

  lemma {:induction false} SplitLastFindsSeparator(left: string, right: string, bare: bool)
    requires HidesColons(left, right, bare)
    ensures SplitLast(left + ":" + right, bare) == Some((left, right))
    decreases |right|
  {
    var s := left + ":" + right;
    var n := |s| - 1;
    if right == "" {
      assert s[..n] == left;
    } else {
      var init := right[..|right| - 1];
      SplitLastFindsSeparator(left, init, bare);
      assert s[..n] == left + ":" + init;
      assert s[n] == right[|right| - 1];
      assert bare && |right| > 1 ==> s[n - 1] == right[|right| - 2];
      assert right == init + [s[n]];
    }
  }

  /** The parser recovers all four parts, whatever the prefix and the value contain. */
  lemma KeyRoundTrip(prefix: string, kind: string, value: string, size: nat)
    requires ValidKind(kind)
    ensures ParseKey(BucketKey(prefix, Identity(kind, value), size)) == Some(KeyParts(prefix, kind, value, size))
  {
    EscapeIsPerCharacter(value);
    UnescapeInvertsEscape(value);
    EscapedColonsFollowBackslashes(value);
    DecimalRoundTrip(size);
    PartsAreFound(prefix, kind, Escape(value), Decimal(size));
    Regrouped(prefix + MARKER, kind, Escape(value), Decimal(size));
  }

  lemma Regrouped(a: string, b: string, c: string, d: string)
    ensures a + ":" + (b + ":" + c) + ":" + d == a + ":" + b + ":" + c + ":" + d
  {
    assert a + ":" + (b + ":" + c) == a + ":" + b + ":" + c;
  }

  /** Each cut from the right falls on the separator it is meant for. */
  lemma PartsAreFound(prefix: string, kind: string, escaped: string, digits: string)
    requires ValidKind(kind) && ColonsEscaped(escaped) && ':' !in digits
    ensures var beforeKind := prefix + MARKER;
            var beforeValue := beforeKind + ":" + kind;
            var beforeSize := beforeValue + ":" + escaped;
            && SplitLast(beforeSize + ":" + digits, false) == Some((beforeSize, digits))
            && SplitLast(beforeSize, true) == Some((beforeValue, escaped))
            && SplitLast(beforeValue, false) == Some((beforeKind, kind))
            && StripSuffix(beforeKind, MARKER) == Some(prefix)
  {
    var beforeKind := prefix + MARKER;
    var beforeValue := beforeKind + ":" + kind;
    SplitLastFindsSeparator(beforeValue + ":" + escaped, digits, false);
    assert beforeValue[|beforeValue| - 1] != '\\' by {
      if kind != "" {
        assert beforeValue[|beforeValue| - 1] == kind[|kind| - 1];
      }
    }
    SplitLastFindsSeparator(beforeValue, escaped, true);
    SplitLastFindsSeparator(beforeKind, kind, false);
  }

  /** Keys are injective in prefix, kind, value and size together. */
  lemma KeysNeverCollide(a: KeyParts, b: KeyParts)
    requires ValidKind(a.kind) && ValidKind(b.kind)
    requires BucketKey(a.prefix, Identity(a.kind, a.value), a.size)
          == BucketKey(b.prefix, Identity(b.kind, b.value), b.size)
    ensures a == b
  {
    KeyRoundTrip(a.prefix, a.kind, a.value, a.size);
    KeyRoundTrip(b.prefix, b.kind, b.value, b.size);
  }

  /** The restriction on kinds is needed: a kind that spells out the marker shares keys with a longer prefix. */
  lemma KindWithColonsCollides(prefix: string, outer: string, inner: string, value: string, size: nat)
    ensures BucketKey(prefix, Identity(outer + MARKER + ":" + inner, value), size)
         == BucketKey(prefix + MARKER + ":" + outer, Identity(inner, value), size)
  {
  }
}
