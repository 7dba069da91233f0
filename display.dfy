/**
 The helper that fits names and e-mail addresses into the fixed-width columns
 of the report (cmd/root.go:253-258). Lengths count `char`s, each standing for
 one byte of the Go string.
 */
module Display {

  /** Width of the name and e-mail columns of the report. */
  const ColumnWidth: int := 30

  /** `truncateString(s, length)`: `s` itself when it fits in `length`,
      otherwise its first `length - 3` characters followed by "...", so that
      the result is exactly `length` long. Go's slice `s[:length-3]` panics
      for a `length` below 3 when `s` does not fit; callers must avoid that. */
  function Truncate(s: string, length: int): (r: string)
    requires |s| <= length || length >= 3
    ensures |s| <= length ==> r == s
    ensures |s| > length ==> |r| == length && r[..length - 3] == s[..length - 3] && r[length - 3..] == "..."
    ensures |r| <= |s|
  {
    if |s| <= length then s else s[..length - 3] + "..."
  }

  /** Every value printed in a name or e-mail column fits the column. */
  lemma TruncateFitsColumn(s: string)
    ensures |Truncate(s, ColumnWidth)| <= ColumnWidth
  {
  }

  /** Truncating again changes nothing: a truncated value already fits. */
  lemma TruncateIdempotent(s: string, length: int)
    requires |s| <= length || length >= 3
    ensures Truncate(Truncate(s, length), length) == Truncate(s, length)
  {
  }
}
