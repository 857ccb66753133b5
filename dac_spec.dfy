/** Meaning of the dac string buffer on plain sequences: C strings, the
    capacity growth policy, concatenation, join, and the three scans
    (contains, starts with, ends with). The class in dac.dfy is proved
    against these definitions. */
module DacSpec {

  /** The terminator byte of a C string. */
  const Nul: char := '\0'

  /** DAC_DEFAULT_CAP: the capacity an unallocated buffer first grows to. */
  const DefaultCap: nat := 256

  /** Number of distinct size_t values (size_t is 64 bits wide). */
  const SizeModulus: nat := 0x1_0000_0000_0000_0000

  /** An integer reduced to size_t, as unsigned C arithmetic wraps it. The
      operations modelled here overflow or underflow by at most one wrap. */
  function ToSize(x: int): (r: nat)
    requires -(SizeModulus as int) <= x < 2 * SizeModulus
    ensures r < SizeModulus && (r - x) % SizeModulus == 0
  {
    if x < 0 then x + SizeModulus
    else if x < SizeModulus then x
    else x - SizeModulus
  }

  // ---------------------------------------------------------------------
  // C strings

  /** No terminator among the bytes: the contents of a C string. */
  predicate NoNul(s: seq<char>)
  {
    forall i :: 0 <= i < |s| ==> s[i] != Nul
  }

  /** strlen: the index of the first terminator of a NUL-terminated array. */
  function StrLen(a: seq<char>): (n: nat)
    requires Nul in a
    ensures n < |a| && a[n] == Nul && NoNul(a[..n])
  {
    if a[0] == Nul then 0
    else
      assert a == [a[0]] + a[1..];
      1 + StrLen(a[1..])
  }

  /** Writing the contents of a C string followed by its terminator and
      reading it back with strlen gives the contents again. */
  lemma CStringRoundTrip(s: seq<char>, rest: seq<char>)
    requires NoNul(s)
    ensures Nul in s + [Nul] + rest
    ensures StrLen(s + [Nul] + rest) == |s|
    ensures (s + [Nul] + rest)[..StrLen(s + [Nul] + rest)] == s
  {
    var a := s + [Nul] + rest;
    assert a[|s|] == Nul;
  }

  // ---------------------------------------------------------------------
  // Capacity growth (dac_reserve_capacity)

  function Pow2(k: nat): (p: nat)
    ensures p >= 1
  {
    if k == 0 then 1 else 2 * Pow2(k - 1)
  }

  /** The doubling loop: double cap until it covers expected. */
  function Doubled(cap: nat, expected: nat): (r: nat)
    requires cap > 0
    ensures r >= cap && r >= expected
    ensures r < 2 * expected || r == cap
    decreases expected - cap
  {
    if expected <= cap then cap else Doubled(2 * cap, expected)
  }

  /** The capacity dac_reserve_capacity leaves behind: unchanged when the
      request already fits; otherwise 256 for an unallocated buffer, then
      doubled until the request fits. */
  function GrownCapacity(cap: nat, expected: nat): (r: nat)
    ensures r >= cap && r >= expected
    ensures expected <= cap <==> r == cap
  {
    if expected <= cap then cap
    else Doubled(if cap == 0 then DefaultCap else cap, expected)
  }

  /** cap doubled k times. */
  function Scaled(cap: nat, k: nat): (r: nat)
    ensures r >= cap
    decreases k
  {
    if k == 0 then cap else Scaled(2 * cap, k - 1)
  }

  /** Doubling k times multiplies by 2^k. */
  lemma {:induction false} ScaledIsPowerMultiple(cap: nat, k: nat)
    ensures Scaled(cap, k) == cap * Pow2(k)
    decreases k
  {
    if k > 0 {
      ScaledIsPowerMultiple(2 * cap, k - 1);
      var q := Pow2(k - 1);
      assert Pow2(k) == 2 * q;
      assert (2 * cap) * q == cap * (2 * q);
    }
  }

  lemma {:induction false} DoubledStopsAtScaled(cap: nat, expected: nat, k: nat)
    requires cap > 0
    requires Scaled(cap, k) >= expected
    requires k == 0 || Scaled(cap, k - 1) < expected
    ensures Doubled(cap, expected) == Scaled(cap, k)
    decreases k
  {
    if k > 0 {
      assert expected > cap;
      DoubledStopsAtScaled(2 * cap, expected, k - 1);
    }
  }

  /** The doubling loop stops at cap * 2^k for the least k that covers the
      request. */
  lemma DoubledIsLeastCover(cap: nat, expected: nat, k: nat)
    requires cap > 0
    requires cap * Pow2(k) >= expected
    requires k == 0 || cap * Pow2(k - 1) < expected
    ensures Doubled(cap, expected) == cap * Pow2(k)
  {
    ScaledIsPowerMultiple(cap, k);
    if k > 0 {
      ScaledIsPowerMultiple(cap, k - 1);
    }
    DoubledStopsAtScaled(cap, expected, k);
  }

  /** Starting from capacity 0, a non-zero request yields 256 * 2^k for the
      least k with 256 * 2^k covering the request. */
  lemma FromZeroCapacity(expected: nat, k: nat)
    requires expected > 0
    requires DefaultCap * Pow2(k) >= expected
    requires k == 0 || DefaultCap * Pow2(k - 1) < expected
    ensures GrownCapacity(0, expected) == DefaultCap * Pow2(k)
  {
    DoubledIsLeastCover(DefaultCap, expected, k);
  }

  lemma {:induction false} DoubledTwice(cap: nat, e1: nat, e2: nat)
    requires cap > 0
    ensures Doubled(Doubled(cap, e1), e2) == Doubled(cap, if e1 <= e2 then e2 else e1)
    decreases e1 - cap
  {
    if e1 > cap {
      DoubledTwice(2 * cap, e1, e2);
    }
  }

  /** Reserving twice leaves the same capacity as one reservation of the
      larger request: growth depends only on the largest request, so a single
      reservation for the combined size loses nothing. */
  lemma ReserveTwiceIsReserveOnce(cap: nat, e1: nat, e2: nat)
    ensures GrownCapacity(GrownCapacity(cap, e1), e2)
         == GrownCapacity(cap, if e1 <= e2 then e2 else e1)
  {
    var start := if cap == 0 then DefaultCap else cap;
    if cap == 0 && e1 == 0 {
    } else {
      assert GrownCapacity(cap, e1) == Doubled(start, e1);
      DoubledTwice(start, e1, e2);
    }
  }

  // ---------------------------------------------------------------------
  // Concatenation and join

  /** items[0] + items[1] + ... + items[n-1]. */
  function Concat(items: seq<seq<char>>): seq<char>
  {
    if |items| == 0 then [] else Concat(items[..|items| - 1]) + items[|items| - 1]
  }

  /** Concatenating two runs of items is concatenating their results. */
  lemma {:induction false} ConcatAppend(a: seq<seq<char>>, b: seq<seq<char>>)
    ensures Concat(a + b) == Concat(a) + Concat(b)
    decreases |b|
  {
    if |b| == 0 {
      assert a + b == a;
    } else {
      var b' := b[..|b| - 1];
      assert (a + b)[..|a + b| - 1] == a + b';
      ConcatAppend(a, b');
    }
  }

  /** The array dac_join builds: items with the delimiter between each pair. */
  function Interleave(items: seq<seq<char>>, delim: seq<char>): seq<seq<char>>
    requires |items| >= 1
  {
    seq(2 * |items| - 1, k requires 0 <= k < 2 * |items| - 1 =>
      if k % 2 == 0 then items[k / 2] else delim)
  }

  /** items[0] + delim + items[1] + ... + delim + items[n-1]. */
  function Joined(items: seq<seq<char>>, delim: seq<char>): seq<char>
    requires |items| >= 1
  {
    if |items| == 1 then items[0]
    else Joined(items[..|items| - 1], delim) + delim + items[|items| - 1]
  }

  lemma InterleaveSnoc(items: seq<seq<char>>, delim: seq<char>)
    requires |items| >= 2
    ensures Interleave(items, delim)
         == Interleave(items[..|items| - 1], delim) + [delim, items[|items| - 1]]
  {
    var n := |items|;
    var a := Interleave(items, delim);
    var b := Interleave(items[..n - 1], delim) + [delim, items[n - 1]];
    assert |a| == |b|;
    forall k | 0 <= k < |a| ensures a[k] == b[k] {
      if k < 2 * n - 3 {
        assert k / 2 < n - 1;
      }
    }
  }

  /** Concatenating a run followed by two more items. */
  lemma ConcatSnoc2(a: seq<seq<char>>, x: seq<char>, y: seq<char>)
    ensures Concat(a + [x, y]) == Concat(a) + x + y
  {
    assert (a + [x, y])[..|a| + 1] == a + [x];
    assert (a + [x])[..|a|] == a;
  }

  /** Concatenating the interleaved array is joining with the delimiter. */
  lemma {:induction false} ConcatInterleave(items: seq<seq<char>>, delim: seq<char>)
    requires |items| >= 1
    ensures Concat(Interleave(items, delim)) == Joined(items, delim)
    decreases |items|
  {
    var n := |items|;
    if n == 1 {
      var one := Interleave(items, delim);
      assert one == [items[0]] by {
        assert |one| == 1 && one[0] == items[0];
      }
      assert one[..0] == [];
    } else {
      var p := items[..n - 1];
      var front := Interleave(p, delim);
      InterleaveSnoc(items, delim);
      ConcatSnoc2(front, delim, items[n - 1]);
      ConcatInterleave(p, delim);
    }
  }

  // ---------------------------------------------------------------------
  // Substring, prefix and suffix

  /** t occurs in s starting at index k. */
  predicate OccursAt(t: seq<char>, s: seq<char>, k: int)
  {
    0 <= k && k + |t| <= |s| && s[k..k + |t|] == t
  }

  /** t occurs as a contiguous run in s (the empty run occurs in every s). */
  predicate IsSubstring(t: seq<char>, s: seq<char>)
  {
    exists k | 0 <= k <= |s| :: OccursAt(t, s, k)
  }

  /** What dac_starts_with answers: an empty prefix matches only the empty
      string; otherwise the first |p| bytes of s are p. */
  predicate PrefixMatches(s: seq<char>, p: seq<char>)
  {
    if |p| == 0 then |s| == 0 else |p| <= |s| && s[..|p|] == p
  }

  /** What dac_ends_with answers: an empty suffix matches only the empty
      string; a non-empty one must be STRICTLY shorter than s, because
      the bound check at dac.h:162 refuses index 0. */
  predicate SuffixMatches(s: seq<char>, x: seq<char>)
  {
    if |x| == 0 then |s| == 0 else |x| < |s| && s[|s| - |x|..] == x
  }

  /** What dac_ends_with evidently means: the last |x| bytes of s are x
      (keeping the source's policy for the empty suffix). */
  predicate SuffixMatchesIntended(s: seq<char>, x: seq<char>)
  {
    if |x| == 0 then |s| == 0 else |x| <= |s| && s[|s| - |x|..] == x
  }

  /** A matching prefix is a substring. */
  lemma PrefixIsSubstring(s: seq<char>, p: seq<char>)
    requires PrefixMatches(s, p)
    ensures IsSubstring(p, s)
  {
    assert OccursAt(p, s, 0);
  }

  /** A matching suffix is a substring. */
  lemma SuffixIsSubstring(s: seq<char>, x: seq<char>)
    requires SuffixMatchesIntended(s, x)
    ensures IsSubstring(x, s)
  {
    assert OccursAt(x, s, |s| - |x|);
  }

  /** As written, dac_ends_with misses a non-empty suffix exactly when it is
      the whole string. */
  lemma SuffixMissesOnlyWholeString(s: seq<char>, x: seq<char>)
    requires |x| > 0
    ensures SuffixMatchesIntended(s, x) <==> SuffixMatches(s, x) || s == x
  {
    if s == x {
      assert s[|s| - |x|..] == s;
    }
  }

  /** The discrepancy itself: no non-empty string ends with itself. */
  lemma WholeStringIsNotASuffix(s: seq<char>)
    requires |s| > 0
    ensures !SuffixMatches(s, s) && SuffixMatchesIntended(s, s)
  {
    assert s[|s| - |s|..] == s;
  }

  /** After appending u to a non-empty s, s is a prefix and a non-empty u a
      suffix of the result, and both are substrings of it. */
  lemma AppendedPartsMatch(s: seq<char>, u: seq<char>)
    requires |s| > 0
    ensures PrefixMatches(s + u, s)
    ensures |u| > 0 ==> SuffixMatches(s + u, u)
    ensures IsSubstring(s, s + u) && IsSubstring(u, s + u)
  {
    assert (s + u)[..|s|] == s;
    assert (s + u)[|s|..] == u;
    assert OccursAt(s, s + u, 0);
    assert OccursAt(u, s + u, |s|);
  }

  /** A substring of s stays a substring when s is extended on either side. */
  lemma SubstringOfExtension(t: seq<char>, s: seq<char>, u: seq<char>)
    requires IsSubstring(t, s)
    ensures IsSubstring(t, s + u) && IsSubstring(t, u + s)
  {
    var k :| 0 <= k <= |s| && OccursAt(t, s, k);
    assert (s + u)[k..k + |t|] == s[k..k + |t|];
    assert OccursAt(t, s + u, k);
    assert (u + s)[|u| + k..|u| + k + |t|] == s[k..k + |t|];
    assert OccursAt(t, u + s, |u| + k);
  }

  /** A run holding a character that s lacks is not a substring of s. */
  lemma MissingCharNotSubstring(t: seq<char>, s: seq<char>, c: char)
    requires c in t && c !in s
    ensures !IsSubstring(t, s)
  {
    var i :| 0 <= i < |t| && t[i] == c;
    forall k | 0 <= k <= |s|
      ensures !OccursAt(t, s, k)
    {
      if k + |t| <= |s| {
        assert s[k..k + |t|][i] == s[k + i] != c;
      }
    }
  }

  /** Every item occurs in the joined string. */
  lemma {:induction false} JoinedHasEachItem(items: seq<seq<char>>, delim: seq<char>, i: nat)
    requires i < |items|
    ensures IsSubstring(items[i], Joined(items, delim))
    decreases |items|
  {
    var n := |items|;
    if n == 1 {
      assert OccursAt(items[0], items[0], 0);
    } else {
      var p := items[..n - 1];
      var front := Joined(p, delim) + delim;
      assert Joined(items, delim) == front + items[n - 1];
      if i == n - 1 {
        assert (front + items[n - 1])[|front|..] == items[n - 1];
        assert OccursAt(items[n - 1], front + items[n - 1], |front|);
      } else {
        JoinedHasEachItem(p, delim, i);
        assert p[i] == items[i];
        SubstringOfExtension(items[i], Joined(p, delim), delim + items[n - 1]);
        assert Joined(p, delim) + (delim + items[n - 1]) == Joined(items, delim);
      }
    }
  }
}
