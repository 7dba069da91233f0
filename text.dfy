/**
 The parts of Go's `strings` and `fmt` packages that the log parser relies on,
 stated over `string` values in which one `char` stands for one byte of the
 Go string:
 - `strings.Split(s, sep)` for a one-character separator (Split, with Join as its inverse),
 - `strings.Fields(s)` over ASCII white space (Fields, with Join as its inverse on space-free words),
 - `fmt.Sscanf(tok, "%d", &v)` on a zero-initialised `v` (ScanInt, with Decimal as its inverse).
 */
module Text {

  // ---------------------------------------------------------------------------
  // strings.Split with a one-character separator
  // ---------------------------------------------------------------------------

  /** Number of occurrences of `c` in `s`. */
  function Occurrences(s: string, c: char): nat
  {
    if s == [] then 0 else (if s[0] == c then 1 else 0) + Occurrences(s[1..], c)
  }

  /** `strings.Split(s, string(sep))`: the pieces between the separators, in order.
      The empty string splits into one empty piece; a leading, trailing or doubled
      separator yields empty pieces. */
  function Split(s: string, sep: char): (parts: seq<string>)
    ensures |parts| == Occurrences(s, sep) + 1
    ensures forall i :: 0 <= i < |parts| ==> sep !in parts[i]
    decreases |s|
  {
    if s == [] then [""]
    else
      var rest := Split(s[1..], sep);
      if s[0] == sep then [""] + rest
      else [[s[0]] + rest[0]] + rest[1..]
  }

  /** `strings.Join(parts, string(sep))`. */
  function Join(parts: seq<string>, sep: char): string
  {
    if parts == [] then ""
    else if |parts| == 1 then parts[0]
    else parts[0] + [sep] + Join(parts[1..], sep)
  }

  /** Joining the pieces again gives back the string that was split. */
  lemma {:induction false} JoinSplit(s: string, sep: char)
    ensures Join(Split(s, sep), sep) == s
    decreases |s|
  {
    if s != [] {
      JoinSplit(s[1..], sep);
      var rest := Split(s[1..], sep);
      if s[0] == sep {
        assert s == [sep] + s[1..];
      } else if |rest| == 1 {
        assert s == [s[0]] + s[1..];
      } else {
        assert Join(rest, sep) == rest[0] + [sep] + Join(rest[1..], sep);
        assert s == [s[0]] + s[1..];
      }
    }
  }

  /** Splitting a join of separator-free pieces gives back exactly those pieces. */
  lemma {:induction false} SplitJoin(parts: seq<string>, sep: char)
    requires |parts| >= 1
    requires forall i :: 0 <= i < |parts| ==> sep !in parts[i]
    ensures Split(Join(parts, sep), sep) == parts
    decreases |parts|, |parts[0]|
  {
    var p := parts[0];
    if p == [] {
      if |parts| > 1 {
        SplitJoin(parts[1..], sep);
        assert Join(parts, sep) == [sep] + Join(parts[1..], sep);
        assert ([sep] + Join(parts[1..], sep))[1..] == Join(parts[1..], sep);
      }
    } else {
      var tail := [p[1..]] + parts[1..];
      assert forall i :: 0 <= i < |tail| ==> sep !in tail[i] by {
        forall i | 0 <= i < |tail| ensures sep !in tail[i] {
          if i > 0 { assert tail[i] == parts[i]; }
          else { assert p == [p[0]] + p[1..]; }
        }
      }
      SplitJoin(tail, sep);
      assert p[0] != sep by { assert p[0] in p; }
      if |parts| == 1 {
        assert Join(parts, sep) == p;
        assert Join(tail, sep) == p[1..];
      } else {
        assert Join(parts, sep) == p + [sep] + Join(parts[1..], sep);
        assert Join(tail, sep) == p[1..] + [sep] + Join(parts[1..], sep);
      }
      assert Join(parts, sep) == [p[0]] + Join(tail, sep);
      assert (Join(parts, sep))[1..] == Join(tail, sep);
      assert [p[0]] + p[1..] == p;
    }
  }

  // ---------------------------------------------------------------------------
  // strings.Fields over ASCII white space
  // ---------------------------------------------------------------------------

  /** The ASCII white space that `strings.Fields` separates on. */
  predicate IsSpace(c: char)
  {
    c == ' ' || c == '\t' || c == '\n' || c == '\r' || c == '\U{000B}' || c == '\U{000C}'
  }

  predicate NoSpace(s: string)
  {
    forall i :: 0 <= i < |s| ==> !IsSpace(s[i])
  }

  /** `s` without its leading white space. */
  function TrimLeft(s: string): (t: string)
    ensures |t| <= |s| && t == s[|s| - |t|..]
    ensures t == [] || !IsSpace(t[0])
    ensures forall i :: 0 <= i < |s| - |t| ==> IsSpace(s[i])
  {
    if s == [] || !IsSpace(s[0]) then s else TrimLeft(s[1..])
  }

  /** The longest prefix of `s` that holds no white space. */
  function Word(s: string): (w: string)
    ensures w <= s && NoSpace(w)
    ensures |w| == |s| || IsSpace(s[|w|])
  {
    if s == [] || IsSpace(s[0]) then "" else [s[0]] + Word(s[1..])
  }

  /** `strings.Fields(s)`: the maximal runs of non-space characters, in order. */
  function Fields(s: string): (fs: seq<string>)
    ensures forall i :: 0 <= i < |fs| ==> fs[i] != "" && NoSpace(fs[i])
    decreases |s|
  {
    var t := TrimLeft(s);
    if t == [] then []
    else
      var w := Word(t);
      assert w != [] by { assert t[0] == t[..1][0]; }
      var rest := Fields(t[|w|..]);
      assert forall i :: 0 < i <= |rest| ==> ([w] + rest)[i] == rest[i - 1];
      [w] + rest
  }

  lemma {:induction false} WordOfJoined(w: string, rest: string)
    requires NoSpace(w)
    requires rest == [] || IsSpace(rest[0])
    ensures Word(w + rest) == w
    decreases |w|
  {
    if w != [] {
      WordOfJoined(w[1..], rest);
      assert (w + rest)[1..] == w[1..] + rest;
      assert [w[0]] + w[1..] == w;
    } else {
      assert w + rest == rest;
    }
  }

  /** Leading white space does not change the fields. */
  lemma FieldsAfterSpace(sep: char, tail: string)
    requires IsSpace(sep)
    ensures Fields([sep] + tail) == Fields(tail)
  {
    var s := [sep] + tail;
    assert s[0] == sep && s[1..] == tail;
    assert TrimLeft(s) == TrimLeft(tail);
    FieldsOfTrimmed(s, tail);
  }

  /** The fields depend only on the text after the leading white space. */
  lemma FieldsOfTrimmed(s: string, u: string)
    requires TrimLeft(s) == TrimLeft(u)
    ensures Fields(s) == Fields(u)
  {
  }

  /** A non-empty space-free word followed by white space is the first field. */
  lemma FieldsCons(w: string, sep: char, tail: string)
    requires w != "" && NoSpace(w) && IsSpace(sep)
    ensures Fields(w + [sep] + tail) == [w] + Fields(tail)
  {
    var s := w + [sep] + tail;
    assert s == w + ([sep] + tail);
    assert s[0] == w[0];
    assert TrimLeft(s) == s;
    WordOfJoined(w, [sep] + tail);
    assert s[|w|..] == [sep] + tail;
    FieldsAfterSpace(sep, tail);
  }

  /** A text that starts with a non-space character has at least one field. */
  lemma FieldsStart(s: string)
    requires s != "" && !IsSpace(s[0])
    ensures |Fields(s)| >= 1
  {
    assert TrimLeft(s) == s;
  }

  /** A text made only of white space has no fields. */
  lemma FieldsAllSpace(s: string)
    requires forall i :: 0 <= i < |s| ==> IsSpace(s[i])
    ensures Fields(s) == []
  {
    var t := TrimLeft(s);
    assert forall i :: 0 <= i < |t| ==> IsSpace(t[i]);
  }

  /** A non-empty space-free word is its own only field. */
  lemma FieldsSingle(w: string)
    requires w != "" && NoSpace(w)
    ensures Fields(w) == [w]
  {
    assert w[0] == w[..1][0];
    assert TrimLeft(w) == w;
    WordOfJoined(w, "");
    assert w + "" == w;
    assert w[|w|..] == [];
  }

  /** `strings.Fields` takes apart what was joined from non-empty, space-free words. */
  lemma {:induction false} FieldsJoin(ws: seq<string>, sep: char)
    requires IsSpace(sep)
    requires forall i :: 0 <= i < |ws| ==> ws[i] != "" && NoSpace(ws[i])
    ensures Fields(Join(ws, sep)) == ws
    decreases |ws|
  {
    if |ws| == 1 {
      FieldsSingle(ws[0]);
    } else if |ws| > 1 {
      var rest := ws[1..];
      var joined := Join(rest, sep);
      FieldsJoin(rest, sep);
      assert Join(ws, sep) == ws[0] + [sep] + joined;
      FieldsCons(ws[0], sep, joined);
      assert ws == [ws[0]] + rest;
    }
  }

  // ---------------------------------------------------------------------------
  // fmt.Sscanf(tok, "%d", &v) into a zero-initialised int
  // ---------------------------------------------------------------------------

  const MaxInt64: int := 0x7FFF_FFFF_FFFF_FFFF
  const MinInt64: int := -0x8000_0000_0000_0000

  predicate IsDigit(c: char)
  {
    '0' <= c <= '9'
  }

  predicate AllDigits(s: string)
  {
    forall i :: 0 <= i < |s| ==> IsDigit(s[i])
  }

  /** The longest prefix of `s` made of decimal digits. */
  function DigitPrefix(s: string): (d: string)
    ensures d <= s && AllDigits(d)
    ensures |d| == |s| || !IsDigit(s[|d|])
  {
    if s == [] || !IsDigit(s[0]) then "" else [s[0]] + DigitPrefix(s[1..])
  }

  /** The value of a string of decimal digits, most significant first. */
  function DecimalValue(ds: string): nat
    requires AllDigits(ds)
  {
    if ds == [] then 0
    else DecimalValue(ds[..|ds| - 1]) * 10 + (ds[|ds| - 1] as int - '0' as int)
  }

  /** The decimal rendering of `n`, as git prints a line count. */
  function Decimal(n: nat): (ds: string)
    ensures ds != "" && AllDigits(ds)
  {
    var d := ('0' as int + n % 10) as char;
    if n < 10 then [d] else Decimal(n / 10) + [d]
  }

  /** The value that `fmt.Sscanf(tok, "%d", &v)` leaves in a `v` that was 0,
      for a token with no leading white space, as `Fields` yields: an optional
      sign, then at least one decimal digit (scanning stops at the first
      non-digit); no digit, or a value outside the 64-bit range, is a scan
      error that leaves `v` at 0. */
  function ScanInt(tok: string): (v: int)
    ensures MinInt64 <= v <= MaxInt64
    ensures v != 0 ==>
              || (|tok| > 0 && IsDigit(tok[0]))
              || (|tok| > 1 && (tok[0] == '+' || tok[0] == '-') && IsDigit(tok[1]))
  {
    var signed := |tok| > 0 && (tok[0] == '+' || tok[0] == '-');
    var body := if signed then tok[1..] else tok;
    var ds := DigitPrefix(body);
    if ds == "" then 0
    else
      var v: int := if signed && tok[0] == '-' then -(DecimalValue(ds) as int) else DecimalValue(ds);
      assert IsDigit(tok[if signed then 1 else 0]) by { assert ds[0] == body[0]; }
      if MinInt64 <= v <= MaxInt64 then v else 0
  }

  lemma {:induction false} DecimalValueOfDecimal(n: nat)
    ensures DecimalValue(Decimal(n)) == n
  {
    var ds := Decimal(n);
    if n >= 10 {
      DecimalValueOfDecimal(n / 10);
      assert ds[..|ds| - 1] == Decimal(n / 10);
    }
  }

  lemma {:induction false} DigitPrefixOfDigits(ds: string, rest: string)
    requires AllDigits(ds)
    requires rest == [] || !IsDigit(rest[0])
    ensures DigitPrefix(ds + rest) == ds
    decreases |ds|
  {
    if ds == [] {
      assert ds + rest == rest;
    } else {
      DigitPrefixOfDigits(ds[1..], rest);
      assert (ds + rest)[1..] == ds[1..] + rest;
      assert [ds[0]] + ds[1..] == ds;
    }
  }

  /** Scanning a count that git printed in decimal, followed by anything that is
      not a digit, gives back the count. */
  lemma ScanIntDecimal(n: nat, rest: string)
    requires n <= MaxInt64
    requires rest == [] || !IsDigit(rest[0])
    ensures ScanInt(Decimal(n) + rest) == n
  {
    var ds := Decimal(n);
    DigitPrefixOfDigits(ds, rest);
    DecimalValueOfDecimal(n);
    assert (ds + rest)[0] == ds[0];
  }

  /** A minus sign before the digits negates the value, down to the smallest
      64-bit integer. */
  lemma ScanIntNegative(n: nat, rest: string)
    requires n <= MaxInt64 + 1
    requires rest == [] || !IsDigit(rest[0])
    ensures ScanInt("-" + Decimal(n) + rest) == -(n as int)
  {
    var ds := Decimal(n);
    var tok := "-" + ds + rest;
    assert tok[1..] == ds + rest;
    DigitPrefixOfDigits(ds, rest);
    DecimalValueOfDecimal(n);
  }

  /** A minus sign before a value below the smallest 64-bit integer is a scan
      error, which leaves 0. */
  lemma ScanIntNegativeOverflow(n: nat, rest: string)
    requires n > MaxInt64 + 1
    requires rest == [] || !IsDigit(rest[0])
    ensures ScanInt("-" + Decimal(n) + rest) == 0
  {
    var ds := Decimal(n);
    var tok := "-" + ds + rest;
    assert tok[1..] == ds + rest;
    DigitPrefixOfDigits(ds, rest);
    DecimalValueOfDecimal(n);
  }

  /** A value beyond the 64-bit range is a scan error, which leaves 0. */
  lemma ScanIntOverflow(n: nat, rest: string)
    requires n > MaxInt64
    requires rest == [] || !IsDigit(rest[0])
    ensures ScanInt(Decimal(n) + rest) == 0
  {
    var ds := Decimal(n);
    DigitPrefixOfDigits(ds, rest);
    DecimalValueOfDecimal(n);
    assert (ds + rest)[0] == ds[0];
  }

}
