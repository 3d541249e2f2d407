/** One cached log line and its approximate UTF-16 size (src/Dtos/LogEntry.cs). */
module LogEntry {

  /** `int.MaxValue`: `Entry.Bytes` is a 32-bit signed integer. */
  const MaxInt32: int := 0x7FFF_FFFF

  /** The first code point outside the Basic Multilingual Plane. */
  const FirstSupplementary: int := 0x1_0000

  /** The length of `s` as .NET counts it (`string.Length`): the number of UTF-16
      code units, where a character outside the Basic Multilingual Plane takes a
      surrogate pair. */
  function Utf16Length(s: string): (n: nat)
    ensures |s| <= n <= 2 * |s|
  {
    if |s| == 0 then 0
    else (if s[0] as int >= FirstSupplementary then 2 else 1) + Utf16Length(s[1..])
  }

  /** The size computation `checked(line.Length * 2)` stays inside the 32-bit range. */
  predicate Fits(line: string) {
    2 * Utf16Length(line) <= MaxInt32
  }

  /** A line whose size can be computed without an overflow exception. */
  type Line = s: string | Fits(s) witness ""

  /** The readonly struct: the line and its size in bytes (2 per UTF-16 code unit).
      A datatype value never changes once built, as the readonly fields promise. */
  datatype Entry = Entry(line: string, bytes: int)

  /** An entry built by the struct's constructor: its size is twice the line's
      UTF-16 length and fits in a 32-bit integer. */
  predicate WellSized(e: Entry) {
    Fits(e.line) && e.bytes == 2 * Utf16Length(e.line)
  }

  /** The struct's constructor. */
  function NewEntry(line: Line): (e: Entry)
    ensures e.line == line
    ensures WellSized(e)
    ensures 2 * |line| <= e.bytes <= 4 * |line|
    ensures 0 <= e.bytes <= MaxInt32 && e.bytes % 2 == 0
  {
    Entry(line, 2 * Utf16Length(line))
  }

  /** The UTF-16 length of a concatenation is the sum of the lengths. */
  lemma {:induction false} Utf16LengthConcat(a: string, b: string)
    ensures Utf16Length(a + b) == Utf16Length(a) + Utf16Length(b)
    decreases |a|
  {
    if |a| == 0 {
      assert a + b == b;
    } else {
      assert (a + b)[0] == a[0];
      assert (a + b)[1..] == a[1..] + b;
      Utf16LengthConcat(a[1..], b);
    }
  }

  /** A line counts one code unit per character exactly when every character
      lies in the Basic Multilingual Plane. */
  lemma {:induction false} Utf16LengthBmp(s: string)
    ensures Utf16Length(s) == |s| <==> forall i :: 0 <= i < |s| ==> s[i] as int < FirstSupplementary
    decreases |s|
  {
    if |s| > 0 {
      Utf16LengthBmp(s[1..]);
      forall i | 1 <= i < |s| ensures s[1..][i - 1] == s[i] { }
      if s[0] as int < FirstSupplementary {
        assert (forall i :: 0 <= i < |s| ==> s[i] as int < FirstSupplementary) <==>
               (forall i :: 0 <= i < |s[1..]| ==> s[1..][i] as int < FirstSupplementary);
      }
    }
  }

  /** A character outside the Basic Multilingual Plane is a surrogate pair: one
      character, two code units, four bytes (U+1F600, an emoji, is one such). */
  lemma SupplementarySize(c: char)
    requires c as int >= FirstSupplementary
    ensures Fits([c]) && NewEntry([c]).bytes == 4
    ensures |"\U{1F600}"| == 1 && "\U{1F600}"[0] as int >= FirstSupplementary
  {
    assert [c][1..] == [];
  }

  /** Extending a line never gives a smaller size; the size is zero only for the empty line. */
  lemma BytesMonotone(a: Line, b: Line)
    ensures a <= b ==> NewEntry(a).bytes <= NewEntry(b).bytes
    ensures NewEntry(a).bytes == 0 <==> a == ""
  {
    if a <= b {
      assert b == a + b[|a|..];
      Utf16LengthConcat(a, b[|a|..]);
    }
  }
}
