/**
 * The two Python 2.7 text built-ins the entry-creation handler relies on:
 * `text.split("-")` and base-10 `int(text)`.
 */
module PyText {
  import opened Wrappers

  // ---- text.split(sep) ----

  /**
   * Python's `text.split(sep)` with an explicit one-character separator:
   * every occurrence of `sep` ends a field and empty fields are kept, so the
   * empty string splits into one empty field.
   */
  function Split(text: string, sep: char): (fields: seq<string>)
    ensures |fields| >= 1
    ensures forall i :: 0 <= i < |fields| ==> sep !in fields[i]
  {
    if text == [] then [[]]
    else
      var rest := Split(text[1..], sep);
      if text[0] == sep then [[]] + rest
      else [[text[0]] + rest[0]] + rest[1..]
  }

  /** Python's `sep.join(fields)`, the inverse of Split. */
  function Join(fields: seq<string>, sep: char): string
  {
    if |fields| == 0 then []
    else if |fields| == 1 then fields[0]
    else fields[0] + [sep] + Join(fields[1..], sep)
  }

  /** Joining the fields of a split gives back the original text. */
  lemma {:induction false} JoinSplit(text: string, sep: char)
    ensures Join(Split(text, sep), sep) == text
  {
    if text != [] {
      var rest := Split(text[1..], sep);
      JoinSplit(text[1..], sep);
      if text[0] == sep {
        assert Split(text, sep) == [[]] + rest;
        assert ([[]] + rest)[1..] == rest;
      } else {
        var fields := Split(text, sep);
        assert fields == [[text[0]] + rest[0]] + rest[1..];
        if |rest| == 1 {
          assert fields == [[text[0]] + rest[0]];
        } else {
          assert fields[1..] == rest[1..];
          assert Join(rest, sep) == rest[0] + [sep] + Join(rest[1..], sep);
        }
      }
    }
  }

  /** A field free of the separator splits into itself followed by whatever the rest splits into. */
  lemma {:induction false} SplitAfterField(field: string, sep: char, rest: string)
    requires sep !in field
    ensures Split(field + [sep] + rest, sep) == [field] + Split(rest, sep)
  {
    if field != [] {
      var text := field + [sep] + rest;
      assert text[1..] == field[1..] + [sep] + rest;
      SplitAfterField(field[1..], sep, rest);
      assert [field[0]] + field[1..] == field;
    } else {
      assert field + [sep] + rest == [sep] + rest;
      assert ([sep] + rest)[1..] == rest;
    }
  }

  /** A text free of the separator is a single field. */
  lemma {:induction false} SplitSingle(field: string, sep: char)
    requires sep !in field
    ensures Split(field, sep) == [field]
  {
    if field != [] {
      SplitSingle(field[1..], sep);
      assert [field[0]] + field[1..] == field;
    }
  }

  /** Splitting a join of separator-free fields gives back the fields. */
  lemma {:induction false} SplitJoin(fields: seq<string>, sep: char)
    requires |fields| >= 1
    requires forall i :: 0 <= i < |fields| ==> sep !in fields[i]
    ensures Split(Join(fields, sep), sep) == fields
  {
    if |fields| == 1 {
      SplitSingle(fields[0], sep);
    } else {
      SplitJoin(fields[1..], sep);
      SplitAfterField(fields[0], sep, Join(fields[1..], sep));
      assert [fields[0]] + fields[1..] == fields;
    }
  }

  /** Text that continues after a separator splits into the fields before it followed by the fields after it. */
  lemma {:induction false} SplitAppend(text: string, sep: char, tail: string)
    ensures Split(text + [sep] + tail, sep) == Split(text, sep) + Split(tail, sep)
  {
    if text == [] {
      SplitAfterField([], sep, tail);
      assert text + [sep] + tail == [] + [sep] + tail;
    } else {
      var whole := text + [sep] + tail;
      assert whole[0] == text[0];
      assert whole[1..] == text[1..] + [sep] + tail;
      SplitAppend(text[1..], sep, tail);
    }
  }

  // ---- int(text), base 10 ----

  /**
   * The ASCII characters `int()` of a unicode string skips as whitespace:
   * tab, newline, vertical tab, form feed, carriage return, the four
   * information separators U+001C to U+001F, and space. Python maps each of
   * them to a space before the C parser sees the text.
   */
  predicate IsSpace(c: char)
  {
    9 <= c as int <= 13 || 28 <= c as int <= 32
  }

  predicate AllSpaces(s: string)
  {
    forall i :: 0 <= i < |s| ==> IsSpace(s[i])
  }

  predicate IsDigit(c: char)
  {
    '0' <= c <= '9'
  }

  predicate AllDigits(s: string)
  {
    forall i :: 0 <= i < |s| ==> IsDigit(s[i])
  }

  /** The value of a string of decimal digits, most significant first. */
  function DigitsValue(s: string): nat
    requires AllDigits(s)
  {
    if s == [] then 0
    else DigitsValue(s[..|s| - 1]) * 10 + (s[|s| - 1] as int - '0' as int)
  }

  /** The text with its leading whitespace removed. */
  function SkipSpaces(s: string): (t: string)
    ensures |t| <= |s|
  {
    if s != [] && IsSpace(s[0]) then SkipSpaces(s[1..]) else s
  }

  /** The longest prefix of the text made of digits. */
  function DigitPrefix(s: string): (d: string)
    ensures |d| <= |s| && AllDigits(d)
  {
    if s != [] && IsDigit(s[0]) then [s[0]] + DigitPrefix(s[1..]) else []
  }

  /** The unsigned part of `int()`: one or more digits, then nothing but whitespace. */
  function ParseDigits(body: string): Option<nat>
  {
    var digits := DigitPrefix(body);
    if digits == [] || SkipSpaces(body[|digits|..]) != [] then None
    else Some(DigitsValue(digits))
  }

  /**
   * Python 2.7's `int(text)` in base 10: optional leading whitespace, an
   * optional sign, optional whitespace after the sign (Python 2 accepts
   * "- 5"), one or more digits, optional trailing whitespace. Anything else
   * raises ValueError, modelled as None.
   */
  function ParseInt(text: string): Option<int>
  {
    var afterSpace := SkipSpaces(text);
    if afterSpace != [] && (afterSpace[0] == '+' || afterSpace[0] == '-') then
      match ParseDigits(SkipSpaces(afterSpace[1..]))
      case None => None
      case Some(magnitude) => Some(if afterSpace[0] == '-' then -(magnitude as int) else magnitude as int)
    else
      match ParseDigits(afterSpace)
      case None => None
      case Some(magnitude) => Some(magnitude)
  }

  /** A digit string is its own longest digit prefix. */
  lemma {:induction false} DigitPrefixOfDigits(s: string)
    requires AllDigits(s)
    ensures DigitPrefix(s) == s
  {
    if s != [] {
      DigitPrefixOfDigits(s[1..]);
      assert [s[0]] + s[1..] == s;
    }
  }

  /** A non-empty string of plain digits parses to the number it spells. */
  lemma DigitsParse(text: string)
    requires text != [] && AllDigits(text)
    ensures ParseInt(text) == Some(DigitsValue(text))
  {
    assert !IsSpace(text[0]);
    assert SkipSpaces(text) == text;
    DigitPrefixOfDigits(text);
    assert text[|text|..] == [];
  }

  /** Leading whitespace is skipped in full, up to the first character that is not whitespace. */
  lemma {:induction false} SkipSpacesOver(w: string, t: string)
    requires AllSpaces(w)
    requires t == [] || !IsSpace(t[0])
    ensures SkipSpaces(w + t) == t
  {
    if w != [] {
      assert (w + t)[1..] == w[1..] + t;
      SkipSpacesOver(w[1..], t);
    } else {
      assert w + t == t;
    }
  }

  /** The digit prefix stops at the first character that is not a digit. */
  lemma {:induction false} DigitPrefixOver(d: string, t: string)
    requires AllDigits(d)
    requires t == [] || !IsDigit(t[0])
    ensures DigitPrefix(d + t) == d
  {
    if d != [] {
      assert (d + t)[0] == d[0];
      assert (d + t)[1..] == d[1..] + t;
      DigitPrefixOver(d[1..], t);
      assert [d[0]] + d[1..] == d;
    } else {
      assert d + t == t;
    }
  }

  /** Digits followed by whitespace are an unsigned number. */
  lemma DigitsThenSpaces(d: string, w: string)
    requires d != [] && AllDigits(d) && AllSpaces(w)
    ensures ParseDigits(d + w) == Some(DigitsValue(d))
  {
    DigitPrefixOver(d, w);
    assert (d + w)[|d|..] == w;
    SkipSpacesOver(w, []);
    assert w + [] == w;
  }

  /** Digits followed by a character that is neither a digit nor whitespace are not a number. */
  lemma DigitsThenJunk(d: string, c: char, rest: string)
    requires AllDigits(d) && !IsDigit(c) && !IsSpace(c)
    ensures ParseDigits(d + [c] + rest) == None
  {
    var tail := [c] + rest;
    assert d + [c] + rest == d + tail;
    DigitPrefixOver(d, tail);
    assert (d + tail)[|d|..] == tail;
  }

  /** Whitespace, then a text not starting with whitespace: the whitespace drops away. */
  lemma SpacesBefore(w1: string, w2: string, t: string)
    requires AllSpaces(w1) && AllSpaces(w2)
    requires t == [] || !IsSpace(t[0])
    ensures SkipSpaces(w1 + w2 + t) == t
  {
    assert AllSpaces(w1 + w2) by {
      forall i | 0 <= i < |w1 + w2| ensures IsSpace((w1 + w2)[i]) {
        if i >= |w1| {
          assert (w1 + w2)[i] == w2[i - |w1|];
        }
      }
    }
    SkipSpacesOver(w1 + w2, t);
  }

  /** Without a sign, `int()` reads the digits right after the whitespace. */
  lemma Unsigned(w1: string, w2: string, t: string)
    requires AllSpaces(w1) && AllSpaces(w2)
    requires t == [] || (!IsSpace(t[0]) && t[0] != '+' && t[0] != '-')
    ensures ParseInt(w1 + w2 + t) ==
      match ParseDigits(t)
      case None => None
      case Some(m) => Some(m as int)
  {
    SpacesBefore(w1, w2, t);
  }

  /** After a sign, `int()` goes on with the whitespace-stripped rest. */
  lemma AfterSign(w1: string, sign: char, w2: string, t: string)
    requires AllSpaces(w1) && AllSpaces(w2) && (sign == '+' || sign == '-')
    requires t == [] || !IsSpace(t[0])
    ensures ParseInt(w1 + [sign] + w2 + t) ==
      match ParseDigits(t)
      case None => None
      case Some(m) => Some(if sign == '-' then -(m as int) else m as int)
  {
    var rest := [sign] + w2 + t;
    assert w1 + [sign] + w2 + t == w1 + rest;
    SkipSpacesOver(w1, rest);
    assert rest[1..] == w2 + t;
    SkipSpacesOver(w2, t);
  }

  /**
   * The shapes `int()` accepts: whitespace, an optional sign, whitespace,
   * one or more digits, whitespace. The value is the digits' value, negated
   * after a minus sign.
   */
  lemma {:induction false} IntShapeParses(w1: string, sign: string, w2: string, d: string, w3: string)
    requires AllSpaces(w1) && AllSpaces(w2) && AllSpaces(w3)
    requires sign == [] || sign == ['+'] || sign == ['-']
    requires d != [] && AllDigits(d)
    ensures ParseInt(w1 + sign + w2 + d + w3) ==
      Some(if sign == ['-'] then -(DigitsValue(d) as int) else DigitsValue(d) as int)
  {
    DigitsThenSpaces(d, w3);
    var t := d + w3;
    assert t[0] == d[0];
    if sign == [] {
      assert w1 + sign + w2 + d + w3 == w1 + w2 + t;
      Unsigned(w1, w2, t);
    } else {
      assert w1 + sign + w2 + d + w3 == w1 + [sign[0]] + w2 + t;
      AfterSign(w1, sign[0], w2, t);
    }
  }

  /** One or more digits in that shape followed by a character that is neither a digit nor whitespace do not parse. */
  lemma {:induction false} TrailingJunkFails(w1: string, sign: string, w2: string, d: string, c: char, rest: string)
    requires AllSpaces(w1) && AllSpaces(w2)
    requires sign == [] || sign == ['+'] || sign == ['-']
    requires d != [] && AllDigits(d) && !IsDigit(c) && !IsSpace(c)
    ensures ParseInt(w1 + sign + w2 + d + [c] + rest) == None
  {
    var t := d + [c] + rest;
    DigitsThenJunk(d, c, rest);
    assert t[0] == d[0];
    if sign == [] {
      assert w1 + sign + w2 + d + [c] + rest == w1 + w2 + t;
      Unsigned(w1, w2, t);
    } else {
      assert w1 + sign + w2 + d + [c] + rest == w1 + [sign[0]] + w2 + t;
      AfterSign(w1, sign[0], w2, t);
    }
  }

  /** `text` is whitespace, an optional sign, whitespace, one or more digits and whitespace, in that order. */
  predicate IsIntShape(text: string, w1: string, sign: string, w2: string, d: string, w3: string)
  {
    && AllSpaces(w1) && AllSpaces(w2) && AllSpaces(w3)
    && (sign == [] || sign == ['+'] || sign == ['-'])
    && d != [] && AllDigits(d)
    && text == w1 + sign + w2 + d + w3
  }

  /** The text splits into the whitespace SkipSpaces drops and what it keeps, which does not start with whitespace. */
  lemma {:induction false} SplitSpaces(s: string) returns (w: string)
    ensures s == w + SkipSpaces(s) && AllSpaces(w)
    ensures SkipSpaces(s) == [] || !IsSpace(SkipSpaces(s)[0])
  {
    if s != [] && IsSpace(s[0]) {
      var v := SplitSpaces(s[1..]);
      w := [s[0]] + v;
      assert s == [s[0]] + s[1..];
    } else {
      w := [];
    }
  }

  /** The text splits into its digit prefix and a rest that does not start with a digit. */
  lemma {:induction false} SplitDigits(s: string) returns (rest: string)
    ensures s == DigitPrefix(s) + rest
    ensures rest == [] || !IsDigit(rest[0])
  {
    if s != [] && IsDigit(s[0]) {
      rest := SplitDigits(s[1..]);
      assert s == [s[0]] + s[1..];
    } else {
      rest := s;
    }
  }

  /** Text whose whitespace-stripped form is empty is all whitespace. */
  lemma OnlySpaces(s: string)
    requires SkipSpaces(s) == []
    ensures AllSpaces(s)
  {
    var w := SplitSpaces(s);
    assert s == w;
  }

  /** What ParseDigits accepts is one or more digits followed by whitespace. */
  lemma DigitsShape(body: string) returns (d: string, w: string)
    requires ParseDigits(body).Some?
    ensures body == d + w && d != [] && AllDigits(d) && AllSpaces(w)
  {
    d := DigitPrefix(body);
    w := SplitDigits(body);
    assert w == body[|d|..];
    OnlySpaces(w);
  }

  /** A signed text `int()` accepts has the shape, with that sign. */
  lemma {:induction false} SignedShape(text: string, w1: string, c: char, unsigned: string)
    returns (w2: string, d: string, w3: string)
    requires text == w1 + [c] + unsigned && AllSpaces(w1) && (c == '+' || c == '-')
    requires ParseDigits(SkipSpaces(unsigned)).Some?
    ensures IsIntShape(text, w1, [c], w2, d, w3)
  {
    w2 := SplitSpaces(unsigned);
    d, w3 := DigitsShape(SkipSpaces(unsigned));
    assert unsigned == w2 + (d + w3);
    assert w1 + [c] + (w2 + (d + w3)) == w1 + [c] + w2 + d + w3;
  }

  /** Every text `int()` accepts has the shape IntShapeParses describes; with it, exactly those texts parse. */
  lemma {:induction false} IntShapeOnly(text: string)
    requires ParseInt(text).Some?
    ensures exists w1, sign, w2, d, w3 :: IsIntShape(text, w1, sign, w2, d, w3)
  {
    var afterSpace := SkipSpaces(text);
    var w1 := SplitSpaces(text);
    if afterSpace != [] && (afterSpace[0] == '+' || afterSpace[0] == '-') {
      assert afterSpace == [afterSpace[0]] + afterSpace[1..];
      assert text == w1 + [afterSpace[0]] + afterSpace[1..];
      var w2, d, w3 := SignedShape(text, w1, afterSpace[0], afterSpace[1..]);
      assert IsIntShape(text, w1, [afterSpace[0]], w2, d, w3);
    } else {
      var d, w3 := DigitsShape(afterSpace);
      assert text == w1 + [] + [] + d + w3;
      assert IsIntShape(text, w1, [], [], d, w3);
    }
  }

  /** Skipping whitespace leaves a suffix of the text. */
  lemma {:induction false} SkipSpacesIsSuffix(s: string)
    ensures SkipSpaces(s) == s[|s| - |SkipSpaces(s)|..]
  {
    if s != [] && IsSpace(s[0]) {
      SkipSpacesIsSuffix(s[1..]);
      assert s[1..][|s| - 1 - |SkipSpaces(s[1..])|..] == s[|s| - |SkipSpaces(s)|..];
    }
  }

  /** Text without a single digit never parses. */
  lemma NeedsDigit(text: string)
    requires forall i :: 0 <= i < |text| ==> !IsDigit(text[i])
    ensures ParseInt(text) == None
  {
    var afterSpace := SkipSpaces(text);
    SkipSpacesIsSuffix(text);
    assert forall i :: 0 <= i < |afterSpace| ==> afterSpace[i] == text[|text| - |afterSpace| + i];
    if afterSpace != [] && (afterSpace[0] == '+' || afterSpace[0] == '-') {
      var body := SkipSpaces(afterSpace[1..]);
      SkipSpacesIsSuffix(afterSpace[1..]);
      assert body == [] || body[0] == afterSpace[|afterSpace| - |body|];
    }
  }

  // ---- formatting, the partner of ParseInt ----

  function DigitChar(n: nat): (c: char)
    requires n < 10
    ensures IsDigit(c) && c as int - '0' as int == n
  {
    ('0' as int + n) as char
  }

  /** The shortest decimal spelling of a natural number, as Python's `str(n)`. */
  function Decimal(n: nat): (s: string)
    ensures s != [] && AllDigits(s)
    ensures DigitsValue(s) == n
  {
    if n < 10 then [DigitChar(n)]
    else
      var s := Decimal(n / 10) + [DigitChar(n % 10)];
      assert s[..|s| - 1] == Decimal(n / 10);
      s
  }

  function Zeros(k: nat): (s: string)
    ensures |s| == k && AllDigits(s)
  {
    if k == 0 then [] else Zeros(k - 1) + ['0']
  }

  /** The decimal spelling padded on the left with zeros to at least `width` characters, as `"%0*d" % (width, n)`. */
  function Padded(n: nat, width: nat): (s: string)
    ensures |s| >= width && s != [] && AllDigits(s)
  {
    var d := Decimal(n);
    if |d| < width then Zeros(width - |d|) + d else d
  }

  lemma {:induction false} ZerosValue(k: nat)
    ensures DigitsValue(Zeros(k)) == 0
  {
    if k > 0 {
      ZerosValue(k - 1);
      assert Zeros(k)[..k - 1] == Zeros(k - 1);
    }
  }

  /** Leading zeros do not change the value of a digit string. */
  lemma {:induction false} LeadingZerosValue(k: nat, s: string)
    requires AllDigits(s)
    ensures AllDigits(Zeros(k) + s) && DigitsValue(Zeros(k) + s) == DigitsValue(s)
  {
    if s == [] {
      assert Zeros(k) + s == Zeros(k);
      ZerosValue(k);
    } else {
      var init := s[..|s| - 1];
      LeadingZerosValue(k, init);
      var whole := Zeros(k) + s;
      assert whole[..|whole| - 1] == Zeros(k) + init;
    }
  }

  /** A padded decimal spelling parses back to the number. */
  lemma PaddedParses(n: nat, width: nat)
    ensures ParseInt(Padded(n, width)) == Some(n)
  {
    var d := Decimal(n);
    if |d| < width {
      LeadingZerosValue(width - |d|, d);
    }
    DigitsParse(Padded(n, width));
  }
}
