/**
 * The per-account record file: its content is read back as the last observed number of
 * grades, and overwritten with the new number when new grades appear.
 */
module Checkpoint {
  import opened Wrappers
  import opened Text

  /** get_last_count on the record file's content (None when the file does not exist):
      the stripped content as an integer, or 0 when the file is missing or int() rejects it. */
  function ReadCount(content: Option<string>): (n: int)
    ensures content.None? ==> n == 0
    ensures content.Some? && !IsIntLiteral(Strip(content.value)) ==> n == 0
    ensures n < 0 ==> content.Some? && Strip(content.value)[0] == '-'
  {
    match content
    case None => 0
    case Some(text) =>
      match ParseInt(Strip(text))
      case None => 0
      case Some(v) => v
  }

  /** The text written to the record file for a snapshot of n grades: str(n). */
  function WriteCount(n: nat): (s: string)
    ensures IsDigitString(s) && Trimmed(s)
  {
    NatToString(n)
  }

  /** What is written is read back, even with whitespace added around it (a trailing newline
      from an editor, say). */
  lemma ReadAfterWritePadded(before: string, n: nat, after: string)
    requires AllSpace(before) && AllSpace(after)
    ensures ReadCount(Some(before + WriteCount(n) + after)) == n
  {
    StripOfPadded(before, WriteCount(n), after);
    ParseIntOfNatToString(n);
  }

  /** A sign, then zeros, then a digit string has no whitespace at either end. */
  lemma SignedLiteralTrimmed(sign: string, z: string, d: string)
    requires sign == "" || sign == "+" || sign == "-"
    requires AllZeros(z) && IsDigitString(d)
    ensures Trimmed(sign + (z + d))
  {
    var w := sign + (z + d);
    assert w[|w| - 1] == d[|d| - 1];
    if sign != "" {
      assert w[0] == sign[0];
    } else if z != [] {
      assert w[0] == z[0];
    } else {
      assert w[0] == d[0];
    }
  }

  /** Any literal int() accepts for a count reads as that count: a sign, leading zeros and
      whitespace around it (a record holding " +007\n" reads as 7). */
  lemma ReadZeroPaddedLiteral(before: string, sign: string, z: string, n: nat, after: string)
    requires AllSpace(before) && AllSpace(after) && AllZeros(z)
    requires sign == "" || sign == "+" || sign == "-"
    ensures ReadCount(Some(before + (sign + (z + WriteCount(n))) + after)) == if sign == "-" then -(n as int) else n
  {
    var d := WriteCount(n);
    assert d == NatToString(n);
    var w := sign + (z + d);
    SignedLiteralTrimmed(sign, z, d);
    StripOfPadded(before, w, after);
    ParseIntOfZeroPadded(z, n);
    if sign == "" {
      assert sign == [] && w == z + d;
      ReadCountOfParsed(before + w + after, n);
    } else if sign == "+" {
      ReadCountOfParsed(before + w + after, n);
    } else {
      ReadCountOfParsed(before + w + after, -(n as int));
    }
  }

  /** The record reads as the value int() gives its stripped content. */
  lemma ReadCountOfParsed(content: string, v: int)
    requires ParseInt(Strip(content)) == Some(v)
    ensures ReadCount(Some(content)) == v
  {
  }

  /** Reading the record right after writing n gives n. */
  lemma ReadAfterWrite(n: nat)
    ensures ReadCount(Some(WriteCount(n))) == n
  {
    ReadAfterWritePadded([], n, []);
    assert [] + WriteCount(n) + [] == WriteCount(n);
  }
}
