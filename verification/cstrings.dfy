/** The two C library string routines the file handler relies on:
    `strstr` (substring search) and `snprintf` into a fixed-size buffer. */
module CStrings {
  import opened Base

  /** `needle` occurs in `hay` at offset `i`. */
  ghost predicate OccursAt(hay: string, needle: string, i: int)
  {
    0 <= i && i + |needle| <= |hay| && hay[i..i + |needle|] == needle
  }

  /** `strstr(hay, needle) != NULL`, as the scan strstr performs: try each
      start position from the left. */
  predicate Contains(hay: string, needle: string)
    decreases |hay|
  {
    |needle| <= |hay| && (hay[..|needle|] == needle || Contains(hay[1..], needle))
  }

  /** An occurrence past the first character is an occurrence in the tail. */
  lemma OccursInTail(hay: string, needle: string, i: int)
    requires 1 <= i && 1 <= |hay|
    ensures OccursAt(hay, needle, i) <==> OccursAt(hay[1..], needle, i - 1)
  {
    if i + |needle| <= |hay| {
      assert hay[1..][i - 1..i - 1 + |needle|] == hay[i..i + |needle|];
    }
  }

  /** The scan agrees with the positional definition of an occurrence. */
  lemma {:induction false} ContainsIff(hay: string, needle: string)
    ensures Contains(hay, needle) <==> exists i :: OccursAt(hay, needle, i)
    decreases |hay|
  {
    if |needle| <= |hay| {
      assert hay[0..0 + |needle|] == hay[..|needle|];
      if hay[..|needle|] == needle {
        assert OccursAt(hay, needle, 0);
      } else {
        ContainsIff(hay[1..], needle);
        forall i | 1 <= i
          ensures OccursAt(hay, needle, i) <==> OccursAt(hay[1..], needle, i - 1)
        {
          OccursInTail(hay, needle, i);
        }
        if Contains(hay[1..], needle) {
          var i :| OccursAt(hay[1..], needle, i);
          assert OccursAt(hay, needle, i + 1);
        }
      }
    }
  }

  /** A needle with a character that never appears in `hay` is not found. */
  lemma AbsentCharNotContained(hay: string, needle: string, k: nat)
    requires k < |needle| && needle[k] !in hay
    ensures !Contains(hay, needle)
  {
    ContainsIff(hay, needle);
    forall i | 0 <= i && i + |needle| <= |hay|
      ensures !OccursAt(hay, needle, i)
    {
      assert hay[i..i + |needle|][k] == hay[i + k];
    }
  }

  /** A needle whose first character appears only too close to the end of
      `hay` for the rest to fit is not found. */
  lemma LeadCharTooLate(hay: string, needle: string)
    requires 1 <= |needle| <= |hay| && needle[0] !in hay[..|hay| - |needle| + 1]
    ensures !Contains(hay, needle)
  {
    ContainsIff(hay, needle);
    forall i | 0 <= i && i + |needle| <= |hay|
      ensures !OccursAt(hay, needle, i)
    {
      assert hay[i..i + |needle|][0] == hay[..|hay| - |needle| + 1][i];
    }
  }

  /** `strstr`: the offset of the leftmost occurrence of `needle` in `hay`,
      or None for a NULL result. */
  method StrStr(hay: string, needle: string) returns (r: Option<nat>)
    ensures r.Some? ==> OccursAt(hay, needle, r.value)
    ensures r.Some? ==> forall j :: 0 <= j < r.value ==> !OccursAt(hay, needle, j)
    ensures r.None? <==> !Contains(hay, needle)
  {
    ContainsIff(hay, needle);
    var i := 0;
    while i + |needle| <= |hay|
      invariant 0 <= i
      invariant forall j :: 0 <= j < i ==> !OccursAt(hay, needle, j)
      decreases |hay| - i
    {
      if hay[i..i + |needle|] == needle {
        return Some(i);
      }
      i := i + 1;
    }
    return None;
  }

  /** `snprintf(buf, size, "%s", s)`: at most `size - 1` characters are
      written before the terminating NUL; the rest of `s` is dropped. */
  function Snprintf(size: nat, s: CString): (r: CString)
    requires size >= 1
    ensures |r| <= size - 1
    ensures r <= s
    ensures |s| < size ==> r == s
    ensures |s| >= size ==> |r| == size - 1
  {
    s[..Min(|s|, size - 1)]
  }
}
