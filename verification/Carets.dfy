/** Caret strings (`carets_to_toml`): `^...^` in a setting stands for a TOML basic string, with
    a doubled caret for a caret inside it. The partner is a reader of basic strings as the
    String section of TOML v1.0.0 defines them. */
module Carets {
  import opened Arithmetic
  import opened Options

  const CARET: char := '^'
  const QUOTE: char := '"'
  const APOSTROPHE: char := '\''
  const BACKSLASH: char := '\\'

  /** The translation, or the (one-based) place of the caret string that is not closed. */
  datatype Outcome = Ok(text: string) | Err(at: nat)

  // ---------------------------------------------------------------- basic strings

  function HexDigit(n: nat): char
    requires n < 16
  {
    if n < 10 then ('0' as int + n) as char else ('a' as int + (n - 10)) as char
  }

  /** `\u` and four lower-case hexadecimal digits, for a code below 256. */
  function UnicodeEscape(code: nat): string
    requires code < 256
  {
    [BACKSLASH, 'u', '0', '0', HexDigit(code / 16), HexDigit(code % 16)]
  }

  predicate IsControl(c: char)
  {
    c as int < 0x20 || c as int == 0x7f
  }

  function Escape(c: char): string
  {
    if c == QUOTE || c == BACKSLASH then [BACKSLASH, c]
    else if IsControl(c) then UnicodeEscape(c as int)
    else [c]
  }

  function EscapeAll(s: string): string
  {
    if s == [] then [] else Escape(s[0]) + EscapeAll(s[1..])
  }

  function Basic(s: string): string
  {
    [QUOTE] + EscapeAll(s) + [QUOTE]
  }

  // ---------------------------------------------------------------- TOML's side

  function HexValue(c: char): Option<nat>
  {
    if '0' <= c <= '9' then Some(c as int - '0' as int)
    else if 'a' <= c <= 'f' then Some(c as int - 'a' as int + 10)
    else if 'A' <= c <= 'F' then Some(c as int - 'A' as int + 10)
    else None
  }

  /** The number written by `s` in hexadecimal, after `high`. */
  function HexNumber(s: string, high: nat): Option<nat>
  {
    if s == [] then Some(high)
    else match HexValue(s[0])
      case None => None
      case Some(digit) => HexNumber(s[1..], high * 16 + digit)
  }

  /** A Unicode scalar value. */
  predicate IsScalar(code: nat)
  {
    code < 0xD800 || 0xE000 <= code < 0x11_0000
  }

  /** The character of an escape that is one character after the backslash. */
  function ShortEscape(c: char): Option<char>
  {
    if c == 'b' then Some(8 as char)
    else if c == 't' then Some(9 as char)
    else if c == 'n' then Some(10 as char)
    else if c == 'f' then Some(12 as char)
    else if c == 'r' then Some(13 as char)
    else if c == QUOTE || c == BACKSLASH then Some(c)
    else None
  }

  /** One escape: the character, and how long it was. */
  function ReadEscape(s: string): (r: Option<(char, nat)>)
    requires s != [] && s[0] == BACKSLASH
    ensures r.Some? ==> 2 <= r.value.1 <= |s|
  {
    if |s| == 1 then None
    else if ShortEscape(s[1]).Some? then Some((ShortEscape(s[1]).value, 2))
    else
      var digits := if s[1] == 'u' then 4 else if s[1] == 'U' then 8 else 0;
      if digits == 0 || |s| < 2 + digits then None
      else match HexNumber(s[2..2 + digits], 0)
        case None => None
        case Some(code) => if IsScalar(code) then Some((code as char, 2 + digits)) else None
  }

  /** Characters that stand for themselves: all but the quote, the backslash and the control
      characters other than the tab. */
  predicate StandsForItself(c: char)
  {
    c != QUOTE && c != BACKSLASH && (!IsControl(c) || c as int == 9)
  }

  /** The rest of a basic string after its opening quote: its value, and what follows the
      closing quote. */
  function ReadBasic(s: string): Option<(string, string)>
    decreases |s|
  {
    if s == [] then None
    else if s[0] == QUOTE then Some(([], s[1..]))
    else if s[0] == BACKSLASH then
      match ReadEscape(s)
      case None => None
      case Some((c, length)) => Consed(c, ReadBasic(s[length..]))
    else if StandsForItself(s[0]) then Consed(s[0], ReadBasic(s[1..]))
    else None
  }

  function Consed(c: char, r: Option<(string, string)>): Option<(string, string)>
  {
    match r
    case None => None
    case Some((value, rest)) => Some(([c] + value, rest))
  }

  /** The value of a text that is exactly one basic string. */
  function DecodeBasic(s: string): Option<string>
  {
    if s == [] || s[0] != QUOTE then None
    else match ReadBasic(s[1..])
      case Some((value, rest)) => if rest == [] then Some(value) else None
      case None => None
  }

  lemma HexDigitValue(n: nat)
    requires n < 16
    ensures HexValue(HexDigit(n)) == Some(n)
  {}

  lemma UnicodeEscapeReads(code: nat, rest: string)
    requires code < 128
    ensures ReadEscape(UnicodeEscape(code) + rest) == Some((code as char, 6))
  {
    var s := UnicodeEscape(code) + rest;
    var d := s[2..6];
    HexDigitValue(0);
    HexDigitValue(code / 16);
    HexDigitValue(code % 16);
    assert d == ['0', '0', HexDigit(code / 16), HexDigit(code % 16)];
    assert HexNumber(d[4..], code) == Some(code);
    assert HexNumber(d[3..], code / 16) == Some(code) by { assert d[3..][1..] == d[4..]; }
    assert HexNumber(d[2..], 0) == Some(code) by { assert d[2..][1..] == d[3..]; }
    assert HexNumber(d[1..], 0) == Some(code) by { assert d[1..][1..] == d[2..]; }
    assert HexNumber(d, 0) == Some(code);
  }

  lemma EscapeReads(c: char, rest: string)
    ensures ReadBasic(Escape(c) + rest) == Consed(c, ReadBasic(rest))
  {
    var s := Escape(c) + rest;
    assert s[|Escape(c)|..] == rest;
    if c == QUOTE || c == BACKSLASH {
      assert s[0] == BACKSLASH && s[1] == c;
    } else if IsControl(c) {
      UnicodeEscapeReads(c as int, rest);
    }
  }

  lemma ConsedWhole(s: string, rest: string)
    requires s != []
    ensures Consed(s[0], Some((s[1..], rest))) == Some((s, rest))
  {
    assert [s[0]] + s[1..] == s;
  }

  lemma Regroup(a: string, b: string, c: string, d: string)
    ensures (a + b) + c + d == a + (b + c + d)
  {}

  lemma {:induction false} EscapeAllReads(s: string, rest: string)
    ensures ReadBasic(EscapeAll(s) + [QUOTE] + rest) == Some((s, rest))
  {
    if s == [] {
      assert EscapeAll(s) + [QUOTE] + rest == [QUOTE] + rest;
      assert ([QUOTE] + rest)[1..] == rest;
    } else {
      var tail := EscapeAll(s[1..]) + [QUOTE] + rest;
      assert EscapeAll(s) + [QUOTE] + rest == Escape(s[0]) + tail by {
        Regroup(Escape(s[0]), EscapeAll(s[1..]), [QUOTE], rest);
      }
      EscapeReads(s[0], tail);
      EscapeAllReads(s[1..], rest);
      ConsedWhole(s, rest);
    }
  }

  /** A written basic string is one basic string, and reads back as what was written. */
  lemma BasicRoundTrip(s: string)
    ensures DecodeBasic(Basic(s)) == Some(s)
  {
    EscapeAllReads(s, []);
    assert Basic(s)[1..] == EscapeAll(s) + [QUOTE] + [];
  }

  // ---------------------------------------------------------------- the translation

  function Prepend(text: string, r: Outcome): Outcome
  {
    match r
    case Ok(more) => Ok(text + more)
    case Err(_) => r
  }

  /** The rest of a caret string after its opening caret: its value, and what follows the
      closing caret. */
  function ReadCaret(s: string): (r: Option<(string, string)>)
    ensures r.Some? ==> |r.value.1| < |s|
    decreases |s|
  {
    if s == [] then None
    else if s[0] == CARET then
      if |s| > 1 && s[1] == CARET then Consed(CARET, ReadCaret(s[2..])) else Some(([], s[1..]))
    else Consed(s[0], ReadCaret(s[1..]))
  }

  predicate IsQuote(c: char)
  {
    c == QUOTE || c == APOSTROPHE
  }

  /** What is left from `i` on; nothing once `i` has run past the end. */
  function From(s: string, i: nat): string
  {
    if i <= |s| then s[i..] else []
  }

  /** How far the scan moves over a character of a quoted string. */
  function Step(c: char, quote: char): nat
  {
    if quote == QUOTE && c == BACKSLASH then 2 else 1
  }

  /** Where a quoted string closes, counted from after its opening quote; past the end if it
      does not close. Only between double quotes does a backslash hide the next character. */
  function Scan(s: string, quote: char): nat
    decreases |s|
  {
    if s == [] || s[0] == quote then 0
    else Step(s[0], quote) + Scan(From(s, Step(s[0], quote)), quote)
  }

  /** The quoted string a text opens with, closed or not. */
  function QuotedLength(s: string): (n: nat)
    requires s != []
    ensures 0 < n <= |s|
  {
    Min(Scan(s[1..], s[0]) + 2, |s|)
  }

  /** What the front of a text becomes, and how much of the text that is; nothing if it is a
      caret string that is not closed. */
  function Piece(s: string): (r: Option<(string, nat)>)
    requires s != []
    ensures r.Some? ==> 0 < r.value.1 <= |s|
  {
    if s[0] == CARET then
      match ReadCaret(s[1..])
      case None => None
      case Some((value, rest)) => Some((Basic(value), |s| - |rest|))
    else if IsQuote(s[0]) then Some((s[..QuotedLength(s)], QuotedLength(s)))
    else Some(([s[0]], 1))
  }

  /** What a text becomes, standing `at` characters into the setting. */
  function Translate(s: string, at: nat): Outcome
    decreases |s|
  {
    if s == [] then Ok([])
    else match Piece(s)
      case None => Err(at + 1)
      case Some((toml, n)) => Prepend(toml, Translate(s[n..], at + n))
  }

  lemma PrependTwice(a: string, b: string, r: Outcome)
    ensures Prepend(a, Prepend(b, r)) == Prepend(a + b, r)
  {
    if r.Ok? { assert a + (b + r.text) == (a + b) + r.text; }
  }

  method EscapeInto(out: string, buf: string) returns (r: string)
    ensures r == out + EscapeAll(buf)
  {
    r := out;
    var k := 0;
    while k < |buf|
      invariant 0 <= k <= |buf| && r + EscapeAll(buf[k..]) == out + EscapeAll(buf)
    {
      assert EscapeAll(buf[k..]) == Escape(buf[k]) + EscapeAll(buf[k + 1..]);
      r := r + Escape(buf[k]);
      k := k + 1;
    }
    assert EscapeAll(buf[k..]) == [];
  }

  function WithBuffer(buf: string, r: Option<(string, string)>): Option<(string, string)>
  {
    match r
    case None => None
    case Some((value, rest)) => Some((buf + value, rest))
  }

  lemma EmptyBuffer(r: Option<(string, string)>)
    ensures WithBuffer([], r) == r
  {
    if r.Some? { assert [] + r.value.0 == r.value.0; }
  }

  /** `goal` is what remains to be read from `i` on, with `buf` read already. */
  ghost predicate Reading(chars: string, i: nat, buf: string, goal: Option<(string, string)>)
  {
    i <= |chars| && goal == WithBuffer(buf, ReadCaret(chars[i..]))
  }

  lemma ReadPair(tail: string)
    ensures ReadCaret([CARET, CARET] + tail) == Consed(CARET, ReadCaret(tail))
  {
    assert ([CARET, CARET] + tail)[2..] == tail;
  }

  lemma ReadPlain(c: char, tail: string)
    requires c != CARET
    ensures ReadCaret([c] + tail) == Consed(c, ReadCaret(tail))
  {
    assert ([c] + tail)[1..] == tail;
  }

  lemma ReadClose(rest: string)
    requires rest == [] || rest[0] != CARET
    ensures ReadCaret([CARET] + rest) == Some(([], rest))
  {
    assert ([CARET] + rest)[1..] == rest;
  }

  lemma BufferOneMore(buf: string, c: char, r: Option<(string, string)>)
    ensures WithBuffer(buf, Consed(c, r)) == WithBuffer(buf + [c], r)
  {
    if r.Some? { assert buf + ([c] + r.value.0) == buf + [c] + r.value.0; }
  }

  lemma PairStep(chars: string, i: nat, buf: string, goal: Option<(string, string)>)
    requires Reading(chars, i, buf, goal) && i + 1 < |chars| && chars[i] == chars[i + 1] == CARET
    ensures Reading(chars, i + 2, buf + [CARET], goal)
  {
    assert chars[i..] == [CARET, CARET] + chars[i + 2..];
    ReadPair(chars[i + 2..]);
    BufferOneMore(buf, CARET, ReadCaret(chars[i + 2..]));
  }

  lemma PlainStep(chars: string, i: nat, buf: string, goal: Option<(string, string)>)
    requires Reading(chars, i, buf, goal) && i < |chars| && chars[i] != CARET
    ensures Reading(chars, i + 1, buf + [chars[i]], goal)
  {
    assert chars[i..] == [chars[i]] + chars[i + 1..];
    ReadPlain(chars[i], chars[i + 1..]);
    BufferOneMore(buf, chars[i], ReadCaret(chars[i + 1..]));
  }

  lemma CloseStep(chars: string, i: nat, buf: string, goal: Option<(string, string)>)
    requires Reading(chars, i, buf, goal) && i < |chars| && chars[i] == CARET
    requires i + 1 == |chars| || chars[i + 1] != CARET
    ensures goal == Some((buf, chars[i + 1..]))
  {
    assert chars[i..] == [CARET] + chars[i + 1..];
    ReadClose(chars[i + 1..]);
    assert buf + [] == buf;
  }

  lemma StartReading(chars: string, i: nat)
    requires i <= |chars|
    ensures Reading(chars, i, [], ReadCaret(chars[i..]))
  {
    EmptyBuffer(ReadCaret(chars[i..]));
  }

  lemma StaysOpen(chars: string, i: nat, buf: string, goal: Option<(string, string)>)
    requires Reading(chars, i, buf, goal) && i == |chars|
    ensures goal == None
  {}

  /** Reads one caret string from after its opening caret at `start`. */
  method ScanCaret(chars: string, start: nat) returns (buf: string, i: nat, closed: bool)
    requires start < |chars|
    ensures closed ==> start < i <= |chars| && ReadCaret(chars[start + 1..]) == Some((buf, chars[i..]))
    ensures !closed ==> ReadCaret(chars[start + 1..]) == None
  {
    buf, i := [], start + 1;
    ghost var goal := ReadCaret(chars[start + 1..]);
    StartReading(chars, start + 1);
    while i < |chars|
      invariant start < i && Reading(chars, i, buf, goal)
    {
      if chars[i] == CARET {
        if i + 1 < |chars| && chars[i + 1] == CARET {
          PairStep(chars, i, buf, goal);
          buf, i := buf + [CARET], i + 2;
          continue;
        }
        CloseStep(chars, i, buf, goal);
        return buf, i + 1, true;
      }
      PlainStep(chars, i, buf, goal);
      buf, i := buf + [chars[i]], i + 1;
    }
    StaysOpen(chars, i, buf, goal);
    closed := false;
  }

  /** One step of the scan, by position. */
  ghost predicate ScansAt(chars: string, j: nat, quote: char)
  {
    Scan(From(chars, j), quote) ==
      if j < |chars| && chars[j] != quote
      then Step(chars[j], quote) + Scan(From(chars, j + Step(chars[j], quote)), quote)
      else 0
  }

  lemma ScanAt(chars: string, j: nat, quote: char)
    ensures ScansAt(chars, j, quote) && (j <= |chars| ==> From(chars, j) == chars[j..])
  {
    if j < |chars| {
      assert From(chars, j)[0] == chars[j];
      assert From(From(chars, j), Step(chars[j], quote)) == From(chars, j + Step(chars[j], quote));
    }
  }

  /** Finds where the quoted string that opens at `i` closes. */
  method ScanQuoted(chars: string, i: nat) returns (j: nat)
    requires i < |chars| && IsQuote(chars[i])
    ensures j == i + 1 + Scan(chars[i + 1..], chars[i])
  {
    hide Scan, From;
    var quote := chars[i];
    j := i + 1;
    ScanAt(chars, j, quote);
    while j < |chars| && chars[j] != quote
      invariant i < j && ScansAt(chars, j, quote)
      invariant j + Scan(From(chars, j), quote) == i + 1 + Scan(chars[i + 1..], quote)
      decreases |chars| - j
    {
      j := j + Step(chars[j], quote);
      ScanAt(chars, j, quote);
    }
  }

  lemma Peel(chars: string, i: nat)
    requires i < |chars|
    ensures chars[i..][0] == chars[i] && chars[i..][1..] == chars[i + 1..]
  {}

  lemma CaretPiece(chars: string, i: nat, value: string, end: nat)
    requires i < end <= |chars| && chars[i] == CARET && ReadCaret(chars[i + 1..]) == Some((value, chars[end..]))
    ensures Piece(chars[i..]) == Some((Basic(value), end - i))
  {
    Peel(chars, i);
  }

  lemma OpenPiece(chars: string, i: nat)
    requires i < |chars| && chars[i] == CARET && ReadCaret(chars[i + 1..]) == None
    ensures Piece(chars[i..]) == None
  {
    Peel(chars, i);
  }

  lemma QuotePiece(chars: string, i: nat, j: nat, end: nat)
    requires i < |chars| && IsQuote(chars[i]) && j == i + 1 + Scan(chars[i + 1..], chars[i])
    requires end == Min(j + 1, |chars|)
    ensures i < end && Piece(chars[i..]) == Some((chars[i..end], end - i))
  {
    Peel(chars, i);
    assert chars[i..][..end - i] == chars[i..end];
  }

  lemma OtherPiece(chars: string, i: nat)
    requires i < |chars| && chars[i] != CARET && !IsQuote(chars[i])
    ensures Piece(chars[i..]) == Some(([chars[i]], 1))
  {
    Peel(chars, i);
  }

  lemma TranslateOne(s: string, at: nat, toml: string, n: nat, rest: string)
    requires s != [] && Piece(s) == Some((toml, n)) && rest == s[n..]
    ensures Translate(s, at) == Prepend(toml, Translate(rest, at + n))
  {}

  lemma TranslateOpen(s: string, at: nat)
    requires s != [] && Piece(s) == None
    ensures Translate(s, at) == Err(at + 1)
  {}

  /** `goal` is what remains to be translated from `i` on, with `out` written already. */
  ghost predicate Translating(chars: string, i: nat, out: string, goal: Outcome)
  {
    goal == Prepend(out, Translate(From(chars, i), i))
  }

  /** What is left to translate once the front is done. */
  lemma NextPiece(chars: string, i: nat, out: string, goal: Outcome, toml: string, n: nat)
    requires i < |chars| && Piece(chars[i..]) == Some((toml, n)) && Translating(chars, i, out, goal)
    ensures i + n <= |chars| && Translating(chars, i + n, out + toml, goal)
  {
    hide Piece;
    TranslateOne(chars[i..], i, toml, n, chars[i + n..]);
    PrependTwice(out, toml, Translate(chars[i + n..], i + n));
  }

  lemma PastTheEnd(chars: string, i: nat, out: string, goal: Outcome)
    requires Translating(chars, |chars|, out, goal) && i >= |chars|
    ensures Translating(chars, i, out, goal) && goal == Ok(out)
  {
    assert out + [] == out;
  }

  lemma StartTranslating(chars: string)
    ensures Translating(chars, 0, [], Translate(chars, 0))
  {
    assert chars[0..] == chars;
    PrependNothing(Translate(chars, 0));
  }

  lemma TranslatedAll(chars: string, i: nat, out: string, goal: Outcome)
    requires Translating(chars, i, out, goal) && i >= |chars|
    ensures goal == Ok(out)
  {
    assert out + [] == out;
  }

  /** One caret string, from its opening caret. */
  method TakeCaret(chars: string, i: nat, out: string, ghost goal: Outcome)
      returns (closed: bool, out': string, i': nat)
    requires i < |chars| && chars[i] == CARET && Translating(chars, i, out, goal)
    ensures !closed ==> goal == Err(i + 1)
    ensures closed ==> i < i' <= |chars| && Translating(chars, i', out', goal)
  {
    hide Piece, Translate, ReadCaret, EscapeAll;
    var buf;
    buf, i', closed := ScanCaret(chars, i);
    if !closed {
      OpenPiece(chars, i);
      TranslateOpen(chars[i..], i);
      return false, out, i;
    }
    CaretPiece(chars, i, buf, i');
    NextPiece(chars, i, out, goal, Basic(buf), i' - i);
    out' := EscapeInto(out + [QUOTE], buf);
    out' := out' + [QUOTE];
    Regroup(out, [QUOTE], EscapeAll(buf), [QUOTE]);
  }

  /** The quoted string that opens at `i` ends before `end`, closed or not. */
  method FindQuoted(chars: string, i: nat) returns (j: nat, end: nat)
    requires i < |chars| && IsQuote(chars[i])
    ensures i < end && end == Min(j + 1, |chars|) && Piece(chars[i..]) == Some((chars[i..end], end - i))
  {
    j := ScanQuoted(chars, i);
    end := Min(j + 1, |chars|);
    QuotePiece(chars, i, j, end);
  }

  /** One quoted string. */
  method TakeQuoted(chars: string, i: nat, out: string, ghost goal: Outcome) returns (out': string, i': nat)
    requires i < |chars| && IsQuote(chars[i]) && Translating(chars, i, out, goal)
    ensures i < i' && Translating(chars, i', out', goal)
  {
    hide Piece, Translate, Scan;
    var j, end := FindQuoted(chars, i);
    out', i' := out + chars[i..end], j + 1;
    NextPiece(chars, i, out, goal, chars[i..end], end - i);
    if end == |chars| { PastTheEnd(chars, i', out', goal); }
  }

  /** The translation as the source computes it: one pass over the characters. */
  method CaretsToToml(chars: string) returns (r: Outcome)
    ensures r == Translate(chars, 0)
  {
    var out: string, i: nat := [], 0;
    ghost var goal := Translate(chars, 0);
    StartTranslating(chars);
    while i < |chars|
      invariant Translating(chars, i, out, goal)
      decreases |chars| - i
    {
      if chars[i] == CARET {
        var closed;
        var start := i;
        closed, out, i := TakeCaret(chars, i, out, goal);
        if !closed { return Err(start + 1); }
      } else if IsQuote(chars[i]) {
        out, i := TakeQuoted(chars, i, out, goal);
      } else {
        OtherPiece(chars, i);
        NextPiece(chars, i, out, goal, [chars[i]], 1);
        out, i := out + [chars[i]], i + 1;
      }
    }
    TranslatedAll(chars, i, out, goal);
    r := Ok(out);
  }

  lemma PrependNothing(r: Outcome)
    ensures Prepend([], r) == r
  {
    if r.Ok? { assert [] + r.text == r.text; }
  }

  // ---------------------------------------------------------------- what it does to a setting

  function Doubled(s: string): string
  {
    if s == [] then [] else (if s[0] == CARET then [CARET, CARET] else [s[0]]) + Doubled(s[1..])
  }

  /** `s` written as a caret string. */
  function Careted(s: string): string
  {
    [CARET] + Doubled(s) + [CARET]
  }

  lemma {:induction false} DoubledReads(s: string, rest: string)
    requires rest == [] || rest[0] != CARET
    ensures ReadCaret(Doubled(s) + [CARET] + rest) == Some((s, rest))
  {
    if s == [] {
      assert Doubled(s) + [CARET] + rest == [CARET] + rest;
      ReadClose(rest);
    } else {
      var tail := Doubled(s[1..]) + [CARET] + rest;
      DoubledReads(s[1..], rest);
      ConsedWhole(s, rest);
      var unit := if s[0] == CARET then [CARET, CARET] else [s[0]];
      Regroup(unit, Doubled(s[1..]), [CARET], rest);
      if s[0] == CARET { ReadPair(tail); } else { ReadPlain(s[0], tail); }
    }
  }

  /** Nothing but doubled carets: the string is never closed. */
  lemma {:induction false} DoubledStaysOpen(s: string)
    ensures ReadCaret(Doubled(s)) == None
  {
    if s != [] {
      DoubledStaysOpen(s[1..]);
      if s[0] == CARET { ReadPair(Doubled(s[1..])); } else { ReadPlain(s[0], Doubled(s[1..])); }
    }
  }

  /** Every string, written as a caret string, comes back from the TOML it becomes. */
  lemma CaretRoundTrip(s: string)
    ensures Translate(Careted(s), 0) == Ok(Basic(s)) && DecodeBasic(Basic(s)) == Some(s)
  {
    BasicRoundTrip(s);
    DoubledReads(s, []);
    assert Careted(s)[1..] == Doubled(s) + [CARET] + [];
    assert Basic(s) + [] == Basic(s);
  }

  lemma CaretFreePiece(s: string) returns (n: nat)
    requires CARET !in s && s != []
    ensures 0 < n <= |s| && Piece(s) == Some((s[..n], n)) && CARET !in s[n..]
  {
    n := Piece(s).value.1;
    assert s[..1] == [s[0]];
  }

  /** Text without carets is left as it is. */
  lemma {:induction false} CaretFreeUnchanged(s: string, at: nat)
    requires CARET !in s
    ensures Translate(s, at) == Ok(s)
    decreases |s|
  {
    hide Piece;
    if s != [] {
      var n := CaretFreePiece(s);
      CaretFreeUnchanged(s[n..], at + n);
      TranslateOne(s, at, s[..n], n, s[n..]);
      assert s[..n] + s[n..] == s;
    }
  }

  /** A setting, taken apart: caret strings, closed quoted strings, and other characters. */
  datatype Segment = Caret(value: string) | Quoted(quote: char, body: string) | Other(c: char)

  /** How a setting ends: with its last segment, inside a quoted string, or inside a caret
      string that is never closed. */
  datatype Tail = Closed | OpenQuote(quote: char, rest: string) | OpenCaret(partial: string)

  /** How many backslashes stand directly before position `j`. */
  function Backslashes(s: string, j: nat): nat
    requires j <= |s|
  {
    if j == 0 || s[j - 1] != BACKSLASH then 0 else Backslashes(s, j - 1) + 1
  }

  /** A closing quote, counted from after the opening one: between single quotes any, between
      double quotes one with an even number of backslashes before it. */
  predicate Closes(s: string, quote: char, j: nat)
    requires j < |s|
  {
    s[j] == quote && (quote == QUOTE ==> Backslashes(s, j) % 2 == 0)
  }

  predicate ClosesFirst(s: string, quote: char, n: nat)
  {
    n < |s| && Closes(s, quote, n) && forall j :: 0 <= j < n ==> !Closes(s, quote, j)
  }

  predicate SegmentOk(seg: Segment)
  {
    match seg
    case Caret(_) => true
    case Quoted(quote, body) => (quote == QUOTE || quote == APOSTROPHE) && ClosesFirst(body + [quote], quote, |body|)
    case Other(c) => c != CARET && c != QUOTE && c != APOSTROPHE
  }

  predicate TailOk(tail: Tail)
  {
    tail.OpenQuote? ==>
      && (tail.quote == QUOTE || tail.quote == APOSTROPHE)
      && forall j :: 0 <= j < |tail.rest| ==> !Closes(tail.rest, tail.quote, j)
  }

  /** What comes next does not open with a caret, which would read as a doubled one. */
  predicate CaretFree(segs: seq<Segment>, tail: Tail)
  {
    if segs == [] then !tail.OpenCaret? else !segs[0].Caret?
  }

  predicate WellFormed(segs: seq<Segment>, tail: Tail)
  {
    if segs == [] then TailOk(tail)
    else SegmentOk(segs[0]) && WellFormed(segs[1..], tail) && (segs[0].Caret? ==> CaretFree(segs[1..], tail))
  }

  function SegmentText(seg: Segment): string
  {
    match seg
    case Caret(value) => Careted(value)
    case Quoted(quote, body) => [quote] + body + [quote]
    case Other(c) => [c]
  }

  function TailText(tail: Tail): string
  {
    match tail
    case Closed => []
    case OpenQuote(quote, rest) => [quote] + rest
    case OpenCaret(partial) => [CARET] + Doubled(partial)
  }

  function Render(segs: seq<Segment>): string
  {
    if segs == [] then [] else SegmentText(segs[0]) + Render(segs[1..])
  }

  function SegmentToml(seg: Segment): string
  {
    if seg.Caret? then Basic(seg.value) else SegmentText(seg)
  }

  function Toml(segs: seq<Segment>): string
  {
    if segs == [] then [] else SegmentToml(segs[0]) + Toml(segs[1..])
  }

  // ---------------------------------------------------------------- segment by segment

  /** What the scan moves over does not close the string, and hides nothing behind it. */
  lemma StepOver(s: string, quote: char, i: nat)
    requires IsQuote(quote) && i < |s| && s[i] != quote && (quote == QUOTE ==> Backslashes(s, i) % 2 == 0)
    ensures forall j :: i <= j < i + Step(s[i], quote) && j < |s| ==> !Closes(s, quote, j)
    ensures quote == QUOTE && i + Step(s[i], quote) <= |s| ==> Backslashes(s, i + Step(s[i], quote)) % 2 == 0
  {
    if quote == QUOTE && s[i] == BACKSLASH && i + 1 < |s| {
      assert Backslashes(s, i + 1) == Backslashes(s, i) + 1;
    }
  }

  lemma {:induction false} ScanFindsFirst(s: string, quote: char, i: nat)
    requires IsQuote(quote) && i <= |s| && (quote == QUOTE ==> Backslashes(s, i) % 2 == 0)
    ensures var n := i + Scan(From(s, i), quote);
            && (n < |s| ==> Closes(s, quote, n))
            && (forall j :: i <= j < n && j < |s| ==> !Closes(s, quote, j))
    decreases |s| - i
  {
    hide Scan, Backslashes, From, Step;
    ScanAt(s, i, quote);
    if i < |s| && s[i] != quote {
      hide Closes;
      StepOver(s, quote, i);
      StepIsShort(s[i], quote);
      var m := Step(s[i], quote);
      if i + m <= |s| { ScanFindsFirst(s, quote, i + m); }
    }
  }

  lemma StepIsShort(c: char, quote: char)
    ensures 1 <= Step(c, quote) <= 2
  {}

  /** The scan stops at the first closing quote, and past the end exactly when there is none. */
  lemma ScanMeaning(s: string, quote: char)
    requires quote == QUOTE || quote == APOSTROPHE
    ensures Scan(s, quote) < |s| ==> ClosesFirst(s, quote, Scan(s, quote))
    ensures Scan(s, quote) >= |s| <==> forall j :: 0 <= j < |s| ==> !Closes(s, quote, j)
    ensures forall n :: ClosesFirst(s, quote, n) ==> n == Scan(s, quote)
  {
    hide Scan, Closes;
    ScanFindsFirst(s, quote, 0);
    assert From(s, 0) == s;
  }

  lemma {:induction false} ScanStops(body: string, quote: char, rest: string)
    requires IsQuote(quote) && Scan(body + [quote], quote) == |body|
    ensures Scan(body + [quote] + rest, quote) == |body|
    decreases |body|
  {
    var short, long := body + [quote], body + [quote] + rest;
    if body == [] {
      assert long[0] == quote;
    } else {
      assert long[0] == short[0] == body[0];
      var n := Step(body[0], quote);
      ScanShift(short, quote, n);
      assert short[n..] == body[n..] + [quote] && long[n..] == body[n..] + [quote] + rest;
      ScanStops(body[n..], quote, rest);
      ScanShift(long, quote, n);
    }
  }

  /** One step of the scan over a character that does not close the string. */
  lemma ScanShift(s: string, quote: char, n: nat)
    requires n <= |s| && s != [] && s[0] != quote
    requires n == Step(s[0], quote)
    ensures Scan(s, quote) == n + Scan(s[n..], quote)
  {}

  lemma CaretSegment(value: string, rest: string)
    requires rest == [] || rest[0] != CARET
    ensures Piece(Careted(value) + rest) == Some((Basic(value), |Careted(value)|))
  {
    var s := Careted(value) + rest;
    DoubledReads(value, rest);
    assert s[1..] == Doubled(value) + [CARET] + rest;
  }

  lemma QuotedSegmentLength(quote: char, body: string, rest: string)
    requires IsQuote(quote) && Scan(body + [quote], quote) == |body|
    ensures QuotedLength([quote] + body + [quote] + rest) == |body| + 2
  {
    hide Scan;
    ScanStops(body, quote, rest);
    assert ([quote] + body + [quote] + rest)[1..] == body + [quote] + rest;
  }

  lemma QuotedSegment(quote: char, body: string, rest: string)
    requires IsQuote(quote) && Scan(body + [quote], quote) == |body|
    ensures Piece([quote] + body + [quote] + rest) == Some(([quote] + body + [quote], |body| + 2))
  {
    var s := [quote] + body + [quote] + rest;
    QuotedSegmentLength(quote, body, rest);
    assert s[0] == quote && s[..|body| + 2] == [quote] + body + [quote];
  }

  lemma SegmentPiece(seg: Segment, rest: string)
    requires SegmentOk(seg) && (seg.Caret? ==> rest == [] || rest[0] != CARET)
    ensures SegmentText(seg) + rest != []
    ensures Piece(SegmentText(seg) + rest) == Some((SegmentToml(seg), |SegmentText(seg)|))
  {
    match seg
    case Caret(value) => CaretSegment(value, rest);
    case Quoted(quote, body) =>
      ScanMeaning(body + [quote], quote);
      QuotedSegment(quote, body, rest);
    case Other(c) => assert ([c] + rest)[0] == c;
  }

  lemma TailPiece(tail: Tail)
    requires TailOk(tail) && tail != Closed
    ensures Piece(TailText(tail)) == if tail.OpenCaret? then None else Some((TailText(tail), |TailText(tail)|))
  {
    var s := TailText(tail);
    match tail
    case OpenQuote(quote, rest) =>
      ScanMeaning(rest, quote);
      assert s[1..] == rest && s[..|s|] == s;
    case OpenCaret(partial) =>
      DoubledStaysOpen(partial);
      assert s[1..] == Doubled(partial);
  }

  /** What the translation of a setting must be, segment by segment. */
  function Expected(segs: seq<Segment>, tail: Tail, at: nat): Outcome
  {
    if tail.OpenCaret? then Err(at + |Render(segs)| + 1) else Ok(Toml(segs) + TailText(tail))
  }

  lemma NextIsNoCaret(segs: seq<Segment>, tail: Tail)
    requires WellFormed(segs, tail) && CaretFree(segs, tail)
    ensures Render(segs) + TailText(tail) == [] || (Render(segs) + TailText(tail))[0] != CARET
  {
    if segs != [] {
      assert (Render(segs) + TailText(tail))[0] == SegmentText(segs[0])[0];
    }
  }

  lemma TranslateTail(tail: Tail, at: nat)
    requires TailOk(tail)
    ensures Translate(TailText(tail), at) == Expected([], tail, at)
  {
    var s := TailText(tail);
    assert [] + s == s;
    if tail != Closed {
      TailPiece(tail);
      if tail.OpenCaret? {
        TranslateOpen(s, at);
      } else {
        TranslateOne(s, at, s, |s|, s[|s|..]);
        assert s[|s|..] == [] && s + [] == s;
      }
    }
  }

  lemma TranslateSegment(seg: Segment, rest: string, at: nat)
    requires SegmentOk(seg) && (seg.Caret? ==> rest == [] || rest[0] != CARET)
    ensures Translate(SegmentText(seg) + rest, at)
      == Prepend(SegmentToml(seg), Translate(rest, at + |SegmentText(seg)|))
  {
    hide Translate, Piece, SegmentText, SegmentToml;
    var s, n := SegmentText(seg) + rest, |SegmentText(seg)|;
    SegmentPiece(seg, rest);
    assert s[n..] == rest;
    TranslateOne(s, at, SegmentToml(seg), n, rest);
  }

  lemma ExpectedStep(segs: seq<Segment>, tail: Tail, at: nat)
    requires segs != []
    ensures Prepend(SegmentToml(segs[0]), Expected(segs[1..], tail, at + |SegmentText(segs[0])|))
      == Expected(segs, tail, at)
  {
    assert SegmentToml(segs[0]) + (Toml(segs[1..]) + TailText(tail)) == Toml(segs) + TailText(tail);
  }

  /** The translation works segment by segment: caret strings become basic strings, all else
      stays, and it fails exactly for a last caret string that is not closed, at its place. */
  lemma {:induction false} TranslateDistributes(segs: seq<Segment>, tail: Tail, at: nat)
    requires WellFormed(segs, tail)
    ensures Translate(Render(segs) + TailText(tail), at) == Expected(segs, tail, at)
    decreases |segs|
  {
    hide Translate, Piece, SegmentText, SegmentToml, TailText;
    if segs == [] {
      TranslateTail(tail, at);
      assert [] + TailText(tail) == TailText(tail);
    } else {
      var text := SegmentText(segs[0]);
      var rest := Render(segs[1..]) + TailText(tail);
      if segs[0].Caret? { NextIsNoCaret(segs[1..], tail); }
      TranslateDistributes(segs[1..], tail, at + |text|);
      TranslateSegment(segs[0], rest, at);
      ExpectedStep(segs, tail, at);
      assert Render(segs) + TailText(tail) == text + rest;
    }
  }

  // ---------------------------------------------------------------- every setting has segments

  lemma ReadNothing()
    ensures ReadCaret([]) == None && Doubled([]) == []
  {}

  /** One more character in front, as it is written. */
  lemma RunsOneMore(c: char, written: string, s: string, more: string)
    requires written == if c == CARET then [CARET, CARET] else [c]
    requires match ReadCaret(s)
             case Some((v, rest)) => more == v && s == Doubled(v) + [CARET] + rest
             case None => s == Doubled(more)
    ensures match Consed(c, ReadCaret(s))
            case Some((v, rest)) => [c] + more == v && written + s == Doubled(v) + [CARET] + rest
            case None => written + s == Doubled([c] + more)
  {
    hide ReadCaret;
    assert ([c] + more)[1..] == more;
    match ReadCaret(s)
    case Some((v, rest)) => Regroup(written, Doubled(v), [CARET], rest);
    case None =>
  }

  lemma {:induction false} CaretRuns(s: string) returns (value: string)
    ensures match ReadCaret(s)
            case Some((v, rest)) => value == v && s == Doubled(v) + [CARET] + rest && (rest == [] || rest[0] != CARET)
            case None => s == Doubled(value)
    decreases |s|
  {
    hide ReadCaret, Doubled;
    if s == [] {
      value := [];
      ReadNothing();
    } else if s[0] != CARET {
      var more := CaretRuns(s[1..]);
      value := [s[0]] + more;
      assert s == [s[0]] + s[1..];
      ReadPlain(s[0], s[1..]);
      RunsOneMore(s[0], [s[0]], s[1..], more);
    } else if |s| > 1 && s[1] == CARET {
      var more := CaretRuns(s[2..]);
      value := [CARET] + more;
      assert s == [CARET, CARET] + s[2..];
      ReadPair(s[2..]);
      RunsOneMore(CARET, [CARET, CARET], s[2..], more);
    } else {
      value := [];
      assert s == [CARET] + s[1..];
      ReadClose(s[1..]);
      ReadNothing();
    }
  }

  /** Every setting is some segments and a tail, so the two lemmas together cover all input. */
  lemma {:induction false} EverySettingHasSegments(s: string) returns (segs: seq<Segment>, tail: Tail)
    ensures WellFormed(segs, tail) && s == Render(segs) + TailText(tail)
    decreases |s|
  {
    hide *;
    if s == [] {
      segs, tail := [], Closed;
      EmptySetting();
    } else {
      var rest, seg;
      seg, rest, tail := FirstSegment(s);
      segs := [];
      if seg.Some? {
        segs, tail := EverySettingHasSegments(rest);
        NextIsFree(seg.value, segs, tail, rest);
        segs := PutFirst(seg.value, segs, tail, rest, s);
      } else {
        OnlyTail(s, tail);
      }
    }
  }

  lemma EmptySetting()
    ensures WellFormed([], Closed) && [] == Render([]) + TailText(Closed)
  {}

  lemma OnlyTail(s: string, tail: Tail)
    requires TailOk(tail) && s == TailText(tail)
    ensures WellFormed([], tail) && s == Render([]) + TailText(tail)
  {
    assert [] + s == s;
  }

  lemma NextIsFree(seg: Segment, segs: seq<Segment>, tail: Tail, rest: string)
    requires WellFormed(segs, tail) && rest == Render(segs) + TailText(tail)
    requires seg.Caret? ==> rest == [] || rest[0] != CARET
    ensures seg.Caret? ==> CaretFree(segs, tail)
  {
    if segs != [] {
      assert rest[0] == SegmentText(segs[0])[0];
    }
  }

  /** The segment a setting opens with, or the tail that it is. */
  lemma FirstSegment(s: string) returns (seg: Option<Segment>, rest: string, tail: Tail)
    requires s != []
    ensures seg.Some? ==> SegmentOk(seg.value) && s == SegmentText(seg.value) + rest && |rest| < |s|
    ensures seg.Some? && seg.value.Caret? ==> rest == [] || rest[0] != CARET
    ensures seg.None? ==> TailOk(tail) && s == TailText(tail)
  {
    hide Scan, ReadCaret, Doubled, SegmentOk, TailOk, SegmentText, TailText;
    seg, rest, tail := None, s[1..], Closed;
    if s[0] == CARET {
      seg, rest, tail := FirstCaret(s);
    } else if IsQuote(s[0]) {
      seg, rest, tail := FirstQuoted(s);
    } else {
      seg := Some(Other(s[0]));
      FirstOther(s);
    }
  }

  lemma FirstCaret(s: string) returns (seg: Option<Segment>, rest: string, tail: Tail)
    requires s != [] && s[0] == CARET
    ensures seg.Some? ==> SegmentOk(seg.value) && s == SegmentText(seg.value) + rest && |rest| < |s|
    ensures seg.Some? ==> rest == [] || rest[0] != CARET
    ensures seg.None? ==> TailOk(tail) && s == TailText(tail)
  {
    hide ReadCaret, Doubled;
    seg, rest, tail := None, s[1..], Closed;
    var value := CaretRuns(s[1..]);
    assert s == [CARET] + s[1..];
    match ReadCaret(s[1..])
    case None =>
      tail := OpenCaret(value);
    case Some((v, after)) =>
      seg, rest := Some(Caret(v)), after;
      assert s == Careted(v) + after;
  }

  lemma FirstQuoted(s: string) returns (seg: Option<Segment>, rest: string, tail: Tail)
    requires s != [] && IsQuote(s[0])
    ensures seg.Some? ==> seg.value.Quoted?
    ensures seg.Some? ==> SegmentOk(seg.value) && s == SegmentText(seg.value) + rest && |rest| < |s|
    ensures seg.None? ==> TailOk(tail) && s == TailText(tail)
  {
    hide Scan;
    seg, rest, tail := None, s[1..], Closed;
    var quote, body := s[0], s[1..];
    var n := Scan(body, quote);
    ScanMeaning(body, quote);
    if n >= |body| {
      tail := OpenQuote(quote, body);
    } else {
      ScanCloses(body, quote);
      ScanMeaning(body[..n] + [quote], quote);
      seg, rest := Some(Quoted(quote, body[..n])), body[n + 1..];
    }
  }

  lemma FirstOther(s: string)
    requires s != [] && s[0] != CARET && !IsQuote(s[0])
    ensures SegmentOk(Other(s[0])) && s == SegmentText(Other(s[0])) + s[1..]
  {}

  lemma PutFirst(seg: Segment, segs: seq<Segment>, tail: Tail, rest: string, s: string) returns (all: seq<Segment>)
    requires SegmentOk(seg) && WellFormed(segs, tail) && (seg.Caret? ==> CaretFree(segs, tail))
    requires rest == Render(segs) + TailText(tail) && s == SegmentText(seg) + rest
    ensures WellFormed(all, tail) && s == Render(all) + TailText(tail)
  {
    all := [seg] + segs;
    assert all[1..] == segs;
    assert s == (SegmentText(seg) + Render(segs)) + TailText(tail);
  }

  /** A closing quote ends the scan; past the end it finds none. */
  lemma ScanFirst(s: string, quote: char)
    requires s != []
    ensures s[0] == quote ==> Scan(s, quote) == 0
    ensures s[0] != quote ==> Step(s[0], quote) <= |s| || Scan(s, quote) >= |s|
  {}

  lemma {:induction false} ScanCloses(s: string, quote: char)
    requires IsQuote(quote) && Scan(s, quote) < |s|
    ensures var n := Scan(s, quote);
            s[n] == quote && s == s[..n] + [quote] + s[n + 1..] && Scan(s[..n] + [quote], quote) == n
    decreases |s|
  {
    hide Scan;
    var n := Scan(s, quote);
    ScanFirst(s, quote);
    if s[0] == quote {
      ScanFirst([quote], quote);
      assert s[..0] + [quote] == [quote];
    } else {
      var m := Step(s[0], quote);
      ScanShift(s, quote, m);
      ScanCloses(s[m..], quote);
      var short := s[..n] + [quote];
      assert short[m..] == s[m..][..n - m] + [quote];
      ScanShift(short, quote, m);
    }
  }

  /** After these segments, at character `at`, a caret string opens that is never closed. */
  ghost predicate Opens(s: string, segs: seq<Segment>, partial: string, at: nat)
  {
    && WellFormed(segs, OpenCaret(partial)) && at == |Render(segs)| + 1
    && s == Render(segs) + TailText(OpenCaret(partial))
  }

  /** A setting is refused exactly when it is some segments and then an opening caret with
      nothing but doubled carets after it; the place named is that caret's, counted from one. */
  lemma RefusedIff(s: string, at: nat)
    ensures Translate(s, 0) == Err(at) <==>
            exists segs, partial :: Opens(s, segs, partial, at)
  {
    if Translate(s, 0) == Err(at) {
      var segs, tail := EverySettingHasSegments(s);
      TranslateDistributes(segs, tail, 0);
      assert Opens(s, segs, tail.partial, at);
    }
    if segs, partial :| Opens(s, segs, partial, at) {
      TranslateDistributes(segs, OpenCaret(partial), 0);
    }
  }
}
