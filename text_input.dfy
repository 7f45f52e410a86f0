/**
 * The text side of octet editing: JavaScript's `parseInt` on decimal text, `Number#toString`,
 * `String#split` and `Array#join` on a one-character separator, the `[0, 255]` clamp applied to
 * every typed octet, and the dotted-decimal edit that is accepted only with exactly four groups.
 */
module TextInput {
  import opened Wrappers
  import opened Binary

  predicate IsDigit(c: char)
  {
    '0' <= c <= '9'
  }

  predicate AllDigits(s: string)
  {
    forall i :: 0 <= i < |s| ==> IsDigit(s[i])
  }

  /** Characters `parseInt` skips before the number. */
  predicate IsSpace(c: char)
  {
    c == ' ' || c == '\t' || c == '\n' || c == '\r'
  }

  function DigitValue(c: char): (d: nat)
    requires IsDigit(c)
    ensures d < 10
  {
    (c as int) - ('0' as int)
  }

  function DigitChar(d: nat): (c: char)
    requires d < 10
    ensures IsDigit(c) && DigitValue(c) == d
  {
    (('0' as int) + d) as char
  }

  /** The number a string of decimal digits denotes, read most significant digit first. */
  function DecimalValue(ds: string): nat
    requires AllDigits(ds)
  {
    if ds == [] then 0 else 10 * DecimalValue(ds[..|ds| - 1]) + DigitValue(ds[|ds| - 1])
  }

  /** `n.toString()` for a non-negative integer: its digits, no sign, no leading zero. */
  function DecimalString(n: nat): (s: string)
    ensures |s| >= 1 && AllDigits(s)
    ensures DecimalValue(s) == n
    ensures |s| > 1 ==> s[0] != '0'
  {
    if n < 10 then [DigitChar(n)]
    else
      var s := DecimalString(n / 10) + [DigitChar(n % 10)];
      assert s[..|s| - 1] == DecimalString(n / 10);
      s
  }

  /** The longest run of decimal digits at the front of s. */
  function DigitPrefix(s: string): (ds: string)
    ensures |ds| <= |s| && ds == s[..|ds|]
    ensures AllDigits(ds)
    ensures |ds| < |s| ==> !IsDigit(s[|ds|])
  {
    if s == [] || !IsDigit(s[0]) then [] else [s[0]] + DigitPrefix(s[1..])
  }

  /** s without its leading white space. */
  function TrimStart(s: string): (t: string)
    ensures |t| <= |s| && t == s[|s| - |t|..]
    ensures t == [] || !IsSpace(t[0])
    ensures forall i :: 0 <= i < |s| - |t| ==> IsSpace(s[i])
  {
    if s != [] && IsSpace(s[0]) then TrimStart(s[1..]) else s
  }

  /**
   * `parseInt(s)` for decimal text: leading white space and one sign are skipped, then the
   * longest run of digits is read and the rest ignored ("12abc" gives 12); no digit at all
   * gives `NaN`, here `None`.
   */
  function ParseInt(s: string): (n: Option<int>)
  {
    var t := TrimStart(s);
    var negative := |t| > 0 && t[0] == '-';
    var unsigned := if |t| > 0 && (t[0] == '-' || t[0] == '+') then t[1..] else t;
    var ds := DigitPrefix(unsigned);
    if ds == [] then None
    else if negative then Some(0 - DecimalValue(ds))
    else Some(DecimalValue(ds))
  }

  /** A string made only of digits is its own longest digit prefix. */
  lemma {:induction false} DigitPrefixOfDigits(s: string)
    requires AllDigits(s)
    ensures DigitPrefix(s) == s
  {
    if s != [] {
      DigitPrefixOfDigits(s[1..]);
    }
  }

  /** A string made only of digits parses to the number it denotes. */
  lemma ParseIntOfDigits(s: string)
    requires |s| >= 1 && AllDigits(s)
    ensures ParseInt(s) == Some(DecimalValue(s))
  {
    assert !IsSpace(s[0]) && s[0] != '-' && s[0] != '+';
    assert TrimStart(s) == s;
    DigitPrefixOfDigits(s);
  }

  /** `parseInt` reads back what `toString` printed. */
  lemma ParseIntOfDecimalString(n: nat)
    ensures ParseInt(DecimalString(n)) == Some(n)
  {
    ParseIntOfDigits(DecimalString(n));
  }

  /**
   * `Math.min(255, Math.max(0, parseInt(text) || 0))`: `NaN` becomes 0, then the value is
   * clamped into the octet range.
   */
  function ClampByte(n: Option<int>): (r: int)
    ensures IsByte(r)
    ensures n.None? ==> r == 0
    ensures n.Some? && IsByte(n.value) ==> r == n.value
    ensures n.Some? && n.value > 255 ==> r == 255
    ensures n.Some? && n.value < 0 ==> r == 0
  {
    var x := if n.Some? then n.value else 0;
    var atLeastZero := if x < 0 then 0 else x;
    if atLeastZero > 255 then 255 else atLeastZero
  }

  /** What a per-octet number field reports for the text typed into it. */
  function NumericInput(text: string): (r: int)
    ensures IsByte(r)
  {
    ClampByte(ParseInt(text))
  }

  /** The per-octet field: above 255 gives 255, below 0 gives 0, no number gives 0, else the number. */
  lemma NumericInputClamps(text: string)
    ensures ParseInt(text).None? ==> NumericInput(text) == 0
    ensures ParseInt(text).Some? ==>
      NumericInput(text) == (if ParseInt(text).value > 255 then 255
                             else if ParseInt(text).value < 0 then 0
                             else ParseInt(text).value)
  {
  }

  /** `parts.join(sep)`. */
  function Join(parts: seq<string>, sep: char): string
  {
    if |parts| == 0 then ""
    else if |parts| == 1 then parts[0]
    else parts[0] + [sep] + Join(parts[1..], sep)
  }

  /** Number of occurrences of c in s. */
  function Count(s: string, c: char): nat
  {
    if s == [] then 0 else (if s[0] == c then 1 else 0) + Count(s[1..], c)
  }

  /**
   * `s.split(sep)` for a one-character separator: the pieces between separators, empty pieces
   * included, so there is always one piece more than there are separators.
   */
  function Split(s: string, sep: char): (parts: seq<string>)
    ensures |parts| == Count(s, sep) + 1
    ensures forall i :: 0 <= i < |parts| ==> sep !in parts[i]
    ensures Join(parts, sep) == s
  {
    if s == [] then [""]
    else
      var rest := Split(s[1..], sep);
      if s[0] == sep then [""] + rest
      else
        var parts := [[s[0]] + rest[0]] + rest[1..];
        assert parts[1..] == rest[1..];
        parts
  }

  /** Splitting text that starts with a separator-free piece and a separator. */
  lemma {:induction false} SplitAfterPiece(x: string, y: string, sep: char)
    requires sep !in x
    ensures Split(x + [sep] + y, sep) == [x] + Split(y, sep)
  {
    if x != [] {
      assert (x + [sep] + y)[1..] == x[1..] + [sep] + y;
      SplitAfterPiece(x[1..], y, sep);
      assert [x[0]] + x[1..] == x;
    } else {
      assert (x + [sep] + y)[1..] == y;
    }
  }

  /** Text without a separator is one piece. */
  lemma {:induction false} SplitNoSeparator(x: string, sep: char)
    requires sep !in x
    ensures Split(x, sep) == [x]
  {
    if x != [] {
      SplitNoSeparator(x[1..], sep);
      assert [x[0]] + x[1..] == x;
    }
  }

  /** Splitting joined separator-free pieces gives the pieces back. */
  lemma {:induction false} SplitJoin(parts: seq<string>, sep: char)
    requires |parts| >= 1
    requires forall i :: 0 <= i < |parts| ==> sep !in parts[i]
    ensures Split(Join(parts, sep), sep) == parts
  {
    if |parts| == 1 {
      SplitNoSeparator(parts[0], sep);
    } else {
      SplitJoin(parts[1..], sep);
      SplitAfterPiece(parts[0], Join(parts[1..], sep), sep);
      assert [parts[0]] + parts[1..] == parts;
    }
  }

  /**
   * The dotted-decimal text field: the edit is taken only when the text splits on '.' into
   * exactly four groups, each clamped on its own; any other count leaves the octets as they were
   * (`None`).
   */
  function ParseDotted(text: string): (r: Option<seq<int>>)
    ensures r.Some? <==> Count(text, '.') == 3
    ensures r.Some? ==> |r.value| == 4 && forall i :: 0 <= i < 4 ==> IsByte(r.value[i])
    ensures r.Some? ==> forall i :: 0 <= i < 4 ==> r.value[i] == ClampByte(ParseInt(Split(text, '.')[i]))
  {
    var parts := Split(text, '.');
    if |parts| == 4 then Some(seq(4, i requires 0 <= i < 4 => ClampByte(ParseInt(parts[i]))))
    else None
  }

  /** Four octets in range. */
  predicate ValidOctets(octets: seq<int>)
  {
    |octets| == 4 && forall i :: 0 <= i < 4 ==> IsByte(octets[i])
  }

  /** The decimal text of each octet. */
  function Groups(octets: seq<int>): (groups: seq<string>)
    requires ValidOctets(octets)
    ensures |groups| == 4
  {
    seq(4, i requires 0 <= i < 4 => DecimalString(octets[i]))
  }

  /** `octets.join('.')`: the text an address field shows. */
  function FormatDotted(octets: seq<int>): string
    requires ValidOctets(octets)
  {
    Join(Groups(octets), '.')
  }

  /** Each octet's text holds no dot and reads back, clamped, as the octet. */
  lemma GroupsReadBack(octets: seq<int>)
    requires ValidOctets(octets)
    ensures forall i :: 0 <= i < 4 ==> '.' !in Groups(octets)[i]
    ensures forall i :: 0 <= i < 4 ==> ClampByte(ParseInt(Groups(octets)[i])) == octets[i]
  {
    forall i | 0 <= i < 4
      ensures '.' !in Groups(octets)[i]
      ensures ClampByte(ParseInt(Groups(octets)[i])) == octets[i]
    {
      assert AllDigits(DecimalString(octets[i]));
      ParseIntOfDecimalString(octets[i]);
    }
  }

  /** The text a field shows parses back, through the dotted edit, to the same four octets. */
  lemma DottedRoundTrip(octets: seq<int>)
    requires ValidOctets(octets)
    ensures ParseDotted(FormatDotted(octets)) == Some(octets)
  {
    var groups := Groups(octets);
    GroupsReadBack(octets);
    SplitJoin(groups, '.');
    var parsed := ParseDotted(FormatDotted(octets));
    assert parsed.Some? && parsed.value == octets;
  }

  /** Different octets always show as different text. */
  lemma FormatDottedInjective(a: seq<int>, b: seq<int>)
    requires ValidOctets(a) && ValidOctets(b)
    ensures FormatDotted(a) == FormatDotted(b) <==> a == b
  {
    DottedRoundTrip(a);
    DottedRoundTrip(b);
  }

  /**
   * The octets after an edit of the dotted text field: the four clamped groups when the text
   * splits into four, the old octets otherwise.
   */
  function DottedEdit(octets: seq<int>, text: string): (r: seq<int>)
    ensures Count(text, '.') != 3 ==> r == octets
    ensures Count(text, '.') == 3 ==> ValidOctets(r) && forall i :: 0 <= i < 4 ==> r[i] == ClampByte(ParseInt(Split(text, '.')[i]))
  {
    match ParseDotted(text)
    case None => octets
    case Some(parsed) => parsed
  }

  /** Typing back the text a field shows for some octets sets the field to exactly those octets. */
  lemma DottedEditRoundTrip(octets: seq<int>, shown: seq<int>)
    requires ValidOctets(shown)
    ensures DottedEdit(octets, FormatDotted(shown)) == shown
  {
    DottedRoundTrip(shown);
  }
}
