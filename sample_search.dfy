/**
 * sstrstr, the bounded substring search both flash samples use to look for
 * their own banner in the flash image (the two copies are identical).
 * The haystack is a byte buffer that may hold zero bytes; the needle is a C
 * string, given here by its bytes before the terminating zero.
 */
module SampleSearch {
  import opened Bytes

  /** A C string's contents: no zero byte before its end. */
  predicate IsCString(s: seq<Byte>) {
    forall k :: 0 <= k < |s| ==> s[k] != 0
  }

  /** The needle starts at index `i`, and the loop visits `i` without running past `length`. */
  predicate MatchAt(haystack: seq<Byte>, needle: seq<Byte>, length: nat, i: nat)
    requires length <= |haystack|
  {
    i < length && i + |needle| <= length && haystack[i..i + |needle|] == needle
  }

  /** The first index from `from` on where the needle is found. */
  ghost function FirstMatchFrom(haystack: seq<Byte>, needle: seq<Byte>, length: nat, from: nat): (r: Option<nat>)
    requires length <= |haystack|
    decreases length - from
  {
    if from >= length || from + |needle| > length then None
    else if haystack[from..from + |needle|] == needle then Some(from)
    else FirstMatchFrom(haystack, needle, length, from + 1)
  }

  /** What sstrstr returns: the index of the result pointer in the haystack, or None for NULL. */
  ghost function FirstMatch(haystack: seq<Byte>, needle: seq<Byte>, length: nat): (r: Option<nat>)
    requires length <= |haystack|
  {
    FirstMatchFrom(haystack, needle, length, 0)
  }

  /** FirstMatchFrom finds the lowest match at or after `from`, and None means there is none. */
  lemma {:induction false} FirstMatchFromIsLowest(haystack: seq<Byte>, needle: seq<Byte>, length: nat, from: nat)
    requires length <= |haystack|
    ensures var r := FirstMatchFrom(haystack, needle, length, from);
            && (r.Some? ==> from <= r.value && MatchAt(haystack, needle, length, r.value))
            && (forall j :: from <= j && (r.None? || j < r.value) ==> !MatchAt(haystack, needle, length, j))
    decreases length - from
  {
    if from >= length || from + |needle| > length {
    } else if haystack[from..from + |needle|] != needle {
      FirstMatchFromIsLowest(haystack, needle, length, from + 1);
    }
  }

  /** The result is the lowest index at which the needle fits and is found, and NULL means there is no such index. */
  lemma FirstMatchIsLowest(haystack: seq<Byte>, needle: seq<Byte>, length: nat)
    requires length <= |haystack|
    ensures var r := FirstMatch(haystack, needle, length);
            && (r.Some? ==> MatchAt(haystack, needle, length, r.value))
            && (forall j: nat :: (r.None? || j < r.value) ==> !MatchAt(haystack, needle, length, j))
  {
    FirstMatchFromIsLowest(haystack, needle, length, 0);
  }

  /** The search never looks at bytes at or beyond `length`. */
  lemma {:induction false} FirstMatchFromReadsOnlyPrefix(h1: seq<Byte>, h2: seq<Byte>, needle: seq<Byte>, length: nat, from: nat)
    requires length <= |h1| && length <= |h2|
    requires h1[..length] == h2[..length]
    ensures FirstMatchFrom(h1, needle, length, from) == FirstMatchFrom(h2, needle, length, from)
    decreases length - from
  {
    if from < length && from + |needle| <= length {
      assert h1[from..from + |needle|] == h1[..length][from..from + |needle|];
      assert h2[from..from + |needle|] == h2[..length][from..from + |needle|];
      FirstMatchFromReadsOnlyPrefix(h1, h2, needle, length, from + 1);
    }
  }

  /** An empty needle is found at the start of any non-empty range, and not in an empty one. */
  lemma EmptyNeedle(haystack: seq<Byte>, length: nat)
    requires length <= |haystack|
    ensures FirstMatch(haystack, [], length) == if length > 0 then Some(0) else None
  {
  }

  /**
   * strncmp(&haystack[at], needle, |needle|) == 0: compare byte by byte,
   * stopping at the first difference or at a zero byte.
   */
  method StrNCmpEqual(haystack: seq<Byte>, at: nat, needle: seq<Byte>) returns (equal: bool)
    requires IsCString(needle) && at + |needle| <= |haystack|
    ensures equal <==> haystack[at..at + |needle|] == needle
  {
    var k := 0;
    while k < |needle|
      invariant 0 <= k <= |needle|
      invariant haystack[at..at + k] == needle[..k]
    {
      if haystack[at + k] != needle[k] {
        assert haystack[at..at + |needle|][k] != needle[k];
        return false;
      }
      // strncmp would also stop at a zero byte, but a C string has none before its end.
      assert needle[k] != 0;
      k := k + 1;
      assert haystack[at..at + k] == haystack[at..at + k - 1] + [haystack[at + k - 1]];
    }
    assert needle[..k] == needle;
    return true;
  }

  /** sstrstr(haystack, needle, length). */
  method SStrStr(haystack: seq<Byte>, needle: seq<Byte>, length: nat) returns (r: Option<nat>)
    requires length <= |haystack| && IsCString(needle)
    ensures r == FirstMatch(haystack, needle, length)
  {
    var i := 0;
    while i < length
      invariant 0 <= i <= length
      invariant FirstMatch(haystack, needle, length) == FirstMatchFrom(haystack, needle, length, i)
    {
      if i + |needle| > length {
        return None;
      }
      var equal := StrNCmpEqual(haystack, i, needle);
      if equal {
        return Some(i);
      }
      i := i + 1;
    }
    return None;
  }
}
