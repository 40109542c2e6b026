/**
 * Byte strings as the stream delivers them (Python 2 `str`), and the
 * first-occurrence search that a delimited read (`read_until`) performs on
 * the stream's read buffer.
 */
module ByteStrings {
  import opened Wrappers

  newtype byte = x: int | 0 <= x < 256

  type Bytes = seq<byte>

  /** The bytes of an ASCII text, one byte per character. */
  function Ascii(s: string): (r: Bytes)
    requires forall i :: 0 <= i < |s| ==> s[i] as int < 256
    ensures |r| == |s|
    ensures forall i :: 0 <= i < |s| ==> r[i] as int == s[i] as int
  {
    seq(|s|, i requires 0 <= i < |s| => s[i] as int as byte)
  }

  /** `pat` occurs in `s` starting at index `i`. */
  predicate OccursAt(s: Bytes, pat: Bytes, i: nat)
  {
    i + |pat| <= |s| && s[i..i + |pat|] == pat
  }

  /** `pat` occurs nowhere in `s`. */
  ghost predicate Absent(s: Bytes, pat: Bytes)
  {
    forall i: nat :: !OccursAt(s, pat, i)
  }

  /**
   * The index of the first occurrence of `pat` in `s`, or None when there
   * is none: the position where a delimited read stops.
   */
  function IndexOf(s: Bytes, pat: Bytes): (r: Option<nat>)
    ensures r.Some? ==> OccursAt(s, pat, r.value)
    ensures r.Some? ==> forall j: nat :: j < r.value ==> !OccursAt(s, pat, j)
    ensures r.None? <==> Absent(s, pat)
    decreases |s|
  {
    if |s| < |pat| then
      assert forall j: nat :: !OccursAt(s, pat, j);
      None
    else if s[..|pat|] == pat then
      Some(0)
    else
      ShiftedOccurrence(s, pat);
      assert !OccursAt(s, pat, 0);
      match IndexOf(s[1..], pat)
      case None =>
        None
      case Some(i) =>
        Some(i + 1)
  }

  /** Occurrences in `s[1..]` are the occurrences in `s` past index 0. */
  lemma ShiftedOccurrence(s: Bytes, pat: Bytes)
    requires |s| > 0
    ensures forall j: nat :: j > 0 ==> (OccursAt(s, pat, j) <==> OccursAt(s[1..], pat, j - 1))
  {
    forall j: nat | j > 0
      ensures OccursAt(s, pat, j) <==> OccursAt(s[1..], pat, j - 1)
    {
      if j + |pat| <= |s| {
        assert s[1..][j - 1..j - 1 + |pat|] == s[j..j + |pat|];
      }
    }
  }

  /**
   * Bytes that arrive later do not move the first occurrence of a delimiter
   * that is already in the buffer.
   */
  lemma {:induction false} IndexOfExtends(s: Bytes, more: Bytes, pat: Bytes)
    requires IndexOf(s, pat).Some?
    ensures IndexOf(s + more, pat) == IndexOf(s, pat)
  {
    var i := IndexOf(s, pat).value;
    PrefixOccurrence(s, more, pat, i);
    forall j: nat | j < i
      ensures !OccursAt(s + more, pat, j)
    {
      PrefixOccurrence(s, more, pat, j);
    }
    FirstOccurrence(s + more, pat, i);
  }

  /** An occurrence that ends inside `s` is unaffected by what follows `s`. */
  lemma PrefixOccurrence(s: Bytes, more: Bytes, pat: Bytes, j: nat)
    requires j + |pat| <= |s|
    ensures OccursAt(s + more, pat, j) <==> OccursAt(s, pat, j)
  {
    assert (s + more)[j..j + |pat|] == s[j..j + |pat|];
  }

  /** An occurrence at `i` with none before it is the first occurrence. */
  lemma FirstOccurrence(s: Bytes, pat: Bytes, i: nat)
    requires OccursAt(s, pat, i)
    requires forall j: nat :: j < i ==> !OccursAt(s, pat, j)
    ensures IndexOf(s, pat) == Some(i)
  {
    assert !Absent(s, pat);
  }
}
