/** The java.lang.String operations the record stores rely on: `toLowerCase`,
    `equalsIgnoreCase`, `contains`, `trim` and `compareToIgnoreCase`, with case
    mapping restricted to the ASCII letters. Also the display helper
    `truncateText`. */
module Text {
  import opened Results

  /** `Character.toLowerCase` on the ASCII letters; every other character is kept. */
  function LowerChar(c: char): char {
    if 'A' <= c <= 'Z' then (c as int + 32) as char else c
  }

  /** `String.toLowerCase`: every character is lowered in place. */
  function Lower(s: string): (r: string)
    ensures |r| == |s|
    ensures forall i :: 0 <= i < |s| ==> r[i] == LowerChar(s[i])
  {
    seq(|s|, i requires 0 <= i < |s| => LowerChar(s[i]))
  }

  /** Lowering a concatenation lowers each part. */
  lemma LowerAppend(a: string, b: string)
    ensures Lower(a + b) == Lower(a) + Lower(b)
  {
  }

  /** `String.equalsIgnoreCase`. */
  predicate EqualsIgnoreCase(a: string, b: string) {
    Lower(a) == Lower(b)
  }

  /** `String.contains`: `part` occurs somewhere in `s` as a contiguous run. */
  predicate Contains(s: string, part: string) {
    exists i | 0 <= i <= |s| :: part <= s[i..]
  }

  /** `s.toLowerCase().contains(part.toLowerCase())`. */
  predicate ContainsIgnoreCase(s: string, part: string) {
    Contains(Lower(s), Lower(part))
  }

  /** A string equal to the key ignoring case also contains it ignoring case. */
  lemma EqualsImpliesContains(a: string, b: string)
    requires EqualsIgnoreCase(a, b)
    ensures ContainsIgnoreCase(a, b)
  {
    assert Lower(b) <= Lower(a)[0..];
  }

  /** Every character is one `trim` strips (code point at most U+0020). */
  predicate IsBlank(s: string) {
    forall i :: 0 <= i < |s| ==> s[i] <= ' '
  }

  /** The first loop of `String.trim`: advance past leading blanks. */
  function SkipLeading(s: string, i: nat): (j: nat)
    requires i <= |s|
    ensures i <= j <= |s|
    ensures forall k :: i <= k < j ==> s[k] <= ' '
    ensures j < |s| ==> ' ' < s[j]
    decreases |s| - i
  {
    if i < |s| && s[i] <= ' ' then SkipLeading(s, i + 1) else i
  }

  /** The second loop of `String.trim`: retreat past trailing blanks, not below `lo`. */
  function SkipTrailing(s: string, lo: nat, hi: nat): (j: nat)
    requires lo <= hi <= |s|
    ensures lo <= j <= hi
    ensures forall k :: j <= k < hi ==> s[k] <= ' '
    ensures lo < j ==> ' ' < s[j - 1]
    decreases hi
  {
    if lo < hi && s[hi - 1] <= ' ' then SkipTrailing(s, lo, hi - 1) else hi
  }

  /** Neither starts nor ends with a blank: the strings `trim` leaves alone. */
  predicate Trimmed(s: string) {
    |s| == 0 || (' ' < s[0] && ' ' < s[|s| - 1])
  }

  /** `String.trim`: drops the leading and the trailing blanks. */
  function Trim(s: string): (r: string)
    ensures |r| == 0 <==> IsBlank(s)
    ensures Trimmed(r) && |r| <= |s|
  {
    var lo := SkipLeading(s, 0);
    var hi := SkipTrailing(s, lo, |s|);
    s[lo..hi]
  }

  /** What `trim` removes is blank: the result is `s` without a blank prefix
      and a blank suffix. */
  lemma TrimSpec(s: string)
    ensures exists lo, hi :: 0 <= lo <= hi <= |s| && Trim(s) == s[lo..hi]
                             && IsBlank(s[..lo]) && IsBlank(s[hi..])
  {
    var lo := SkipLeading(s, 0);
    var hi := SkipTrailing(s, lo, |s|);
    assert IsBlank(s[..lo]) && IsBlank(s[hi..]);
  }

  /** The strings `trim` leaves alone are exactly those without a blank at
      either end. */
  lemma TrimmedIffFixed(s: string)
    ensures Trimmed(s) <==> Trim(s) == s
  {
    if Trimmed(s) && |s| > 0 {
      assert SkipLeading(s, 0) == 0;
      assert SkipTrailing(s, 0, |s|) == |s|;
      assert s[0..|s|] == s;
    }
  }

  /** Trimming twice trims nothing more. */
  lemma TrimIdempotent(s: string)
    ensures Trim(Trim(s)) == Trim(s)
  {
    TrimmedIffFixed(Trim(s));
  }

  /** `String.compareToIgnoreCase`: the difference of the first pair of
      characters that differ after case mapping, or else the difference of the
      lengths. */
  function CompareIgnoreCase(a: string, b: string): int
    decreases |a|
  {
    if |a| == 0 || |b| == 0 then |a| - |b|
    else if LowerChar(a[0]) != LowerChar(b[0]) then LowerChar(a[0]) as int - LowerChar(b[0]) as int
    else CompareIgnoreCase(a[1..], b[1..])
  }

  /** Swapping the operands negates the comparison. */
  lemma {:induction false} CompareAntisymmetric(a: string, b: string)
    ensures CompareIgnoreCase(a, b) == -CompareIgnoreCase(b, a)
    decreases |a|
  {
    if |a| > 0 && |b| > 0 && LowerChar(a[0]) == LowerChar(b[0]) {
      CompareAntisymmetric(a[1..], b[1..]);
    }
  }

  /** The comparison is zero exactly when the strings are equal ignoring case. */
  lemma {:induction false} CompareZeroIffEqualsIgnoreCase(a: string, b: string)
    ensures CompareIgnoreCase(a, b) == 0 <==> EqualsIgnoreCase(a, b)
    decreases |a|
  {
    if |a| > 0 && |b| > 0 {
      assert Lower(a) == [LowerChar(a[0])] + Lower(a[1..]);
      assert Lower(b) == [LowerChar(b[0])] + Lower(b[1..]);
      if LowerChar(a[0]) == LowerChar(b[0]) {
        CompareZeroIffEqualsIgnoreCase(a[1..], b[1..]);
      } else {
        assert Lower(a)[0] != Lower(b)[0];
      }
    } else if |a| != |b| {
      assert |Lower(a)| != |Lower(b)|;
    }
  }

  /** "Not after" is transitive, and strictly so when either step is strict. */
  lemma {:induction false} CompareTransitive(a: string, b: string, c: string)
    requires CompareIgnoreCase(a, b) <= 0 && CompareIgnoreCase(b, c) <= 0
    ensures CompareIgnoreCase(a, c) <= 0
    ensures CompareIgnoreCase(a, b) < 0 || CompareIgnoreCase(b, c) < 0 ==> CompareIgnoreCase(a, c) < 0
    decreases |a|
  {
    if |a| > 0 && |b| > 0 && |c| > 0 {
      if LowerChar(a[0]) == LowerChar(b[0]) && LowerChar(b[0]) == LowerChar(c[0]) {
        CompareTransitive(a[1..], b[1..], c[1..]);
      }
    }
  }

  /** `truncateText` from the report listing: `null` becomes the empty string,
      a text within `max` characters is kept, and a longer one is cut to
      `max - 3` characters followed by an ellipsis. The precondition is exactly
      what keeps Java's `substring(0, max - 3)` from throwing. */
  function TruncateText(s: Option<string>, max: int): (r: string)
    requires s.None? || |s.value| <= max || 3 <= max
    ensures s.None? ==> r == ""
    ensures s.Some? && |s.value| <= max ==> r == s.value
    ensures s.Some? && |s.value| > max ==> |r| == max && r[..max - 3] <= s.value && r[max - 3..] == "..."
    ensures s.Some? ==> |r| <= max
  {
    match s
    case None => ""
    case Some(t) => if |t| <= max then t else t[..max - 3] + "..."
  }
}
