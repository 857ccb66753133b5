/** The dac string buffer of dac.h: a heap byte array `buf` (the `ptr`
    field), the number of bytes in use including the terminator (`count`),
    and the number of bytes allocated (`capacity`). */
module Dac {
  import opened DacSpec

  /** memcpy(dst + at, src, |src|): writes src into dst at offset at and
      leaves every other byte alone. */
  method MemCopy(dst: array<char>, at: nat, src: seq<char>)
    requires at + |src| <= dst.Length
    modifies dst
    ensures dst[..at] == old(dst[..at])
    ensures dst[at..at + |src|] == src
    ensures dst[at + |src|..] == old(dst[at + |src|..])
  {
    var k := 0;
    while k < |src|
      invariant 0 <= k <= |src|
      invariant forall m :: 0 <= m < at ==> dst[m] == old(dst[m])
      invariant forall m :: 0 <= m < k ==> dst[at + m] == src[m]
      invariant forall m :: at + k <= m < dst.Length ==> dst[m] == old(dst[m])
    {
      dst[at + k] := src[k];
      k := k + 1;
    }
  }

  /** realloc to a block of at least the old size: a fresh array whose
      first a.Length bytes are those of a. */
  method Realloc(a: array<char>, size: nat) returns (b: array<char>)
    requires a.Length <= size
    ensures fresh(b) && b.Length == size
    ensures b[..a.Length] == a[..]
  {
    b := new char[size];
    var k := 0;
    while k < a.Length
      invariant 0 <= k <= a.Length
      invariant forall m :: 0 <= m < k ==> b[m] == a[m]
    {
      b[k] := a[k];
      k := k + 1;
    }
  }

  class Dac {
    var buf: array<char>
    var count: nat
    var capacity: nat

    /** The allocation is described truthfully (this is all that holds of
        the zero-initialised struct inside dac_new). */
    ghost predicate Allocated()
      reads this
    {
      buf.Length == capacity && count <= capacity
    }

    /** The string invariant: a terminator at count - 1, none before it. */
    ghost predicate Valid()
      reads this, buf
    {
      Allocated() && 1 <= count && buf[count - 1] == Nul && NoNul(buf[..count - 1])
    }

    /** The string the buffer holds, without its terminator. */
    ghost function Contents(): seq<char>
      reads this, buf
      requires Valid()
    {
      buf[..count - 1]
    }

    /** dac_new: a buffer holding the C string s (s is the NUL-terminated
        character array the argument points to). */
    constructor (s: seq<char>)
      requires Nul in s
      ensures Valid() && fresh(buf)
      ensures Contents() == s[..StrLen(s)]
      ensures count == StrLen(s) + 1
      ensures capacity == GrownCapacity(0, StrLen(s) + 1)
    {
      buf := new char[0];
      count, capacity := 0, 0;
      new;
      var len := StrLen(s) + 1;
      ReserveCapacity(len);
      MemCopy(buf, 0, s[..len]);
      count := len;
      assert buf[..count - 1] == s[..StrLen(s)];
    }

    /** dac_len: the length of the string. */
    function Len(): (n: nat)
      reads this, buf
      requires Valid()
      ensures n == |Contents()|
    {
      count - 1
    }

    /** dac_to_cstr: the buffer seen as a C string; strlen of it is the
        length and the bytes before the terminator are the contents. */
    function CStr(): (r: seq<char>)
      reads this, buf
      requires Valid()
      ensures Nul in r && StrLen(r) == Len() && r[..StrLen(r)] == Contents()
    {
      CStringRoundTrip(Contents(), []);
      assert buf[..count] == Contents() + [Nul] + [];
      buf[..count]
    }

    /** dac_reserve_capacity: grow the allocation by the doubling policy so
        that it holds at least expected bytes, keeping the bytes it had. */
    method ReserveCapacity(expected: nat)
      requires Allocated()
      modifies this
      ensures Allocated() && count == old(count)
      ensures capacity == GrownCapacity(old(capacity), expected)
      ensures expected <= old(capacity) ==> buf == old(buf)
      ensures buf == old(buf) || fresh(buf)
      ensures buf[..old(capacity)] == old(buf[..])
      ensures old(Valid()) ==> Valid() && Contents() == old(Contents())
    {
      if expected > capacity {
        if capacity == 0 {
          capacity := DefaultCap;
        }
        while expected > capacity
          invariant old(capacity) <= capacity && 0 < capacity
          invariant Doubled(capacity, expected) == GrownCapacity(old(capacity), expected)
          invariant buf == old(buf) && count == old(count)
          decreases expected - capacity
        {
          capacity := capacity * 2;
        }
        buf := Realloc(buf, capacity);
        assert buf[..count] == old(buf[..count]);
      }
    }

    /** The copy step shared by the appends: memcpy a C string (src and its
        terminator) over this terminator, then move count past it. The
        room must already be reserved. */
    method CopyAtTerminator(src: seq<char>)
      requires Valid() && NoNul(src) && count + |src| <= capacity
      modifies this`count, buf
      ensures Valid() && buf == old(buf) && capacity == old(capacity)
      ensures Contents() == old(Contents()) + src
      ensures count == old(count) + |src|
    {
      ghost var before, at := Contents(), count - 1;
      MemCopy(buf, count - 1, src + [Nul]);
      count := (count - 1) + |src| + 1;
      WrittenOverTerminator(before, buf[..], at, src);
    }

    /** dac_append: copy item, terminator included, over the terminator of
        this string. item must not share this buffer. */
    method Append(item: Dac)
      requires Valid() && item.Valid() && item.buf != buf
      modifies this, buf
      ensures Valid() && (buf == old(buf) || fresh(buf))
      ensures Contents() == old(Contents()) + old(item.Contents())
      ensures Len() == old(Len()) + old(item.Len())
      ensures capacity == GrownCapacity(old(capacity), old(Len()) + old(item.Len()) + 1)
      ensures unchanged(item, item.buf)
    {
      var newCount := Len() + item.Len() + 1;
      ReserveCapacity(newCount);
      CopyAtTerminator(item.buf[..item.Len()]);
    }

    /** dac_append_str: as Append, from a NUL-terminated character array. */
    method AppendStr(str: seq<char>)
      requires Valid() && Nul in str
      modifies this, buf
      ensures Valid() && (buf == old(buf) || fresh(buf))
      ensures Contents() == old(Contents()) + str[..StrLen(str)]
      ensures capacity == GrownCapacity(old(capacity), old(Len()) + StrLen(str) + 1)
    {
      var newCount := Len() + StrLen(str) + 1;
      ReserveCapacity(newCount);
      CopyAtTerminator(str[..StrLen(str)]);
    }

    /** The first loop of dac_append_many: the count the buffer will have
        once every item is appended (the items' lengths plus this length and
        one terminator). */
    method CountAfter(items: seq<seq<char>>) returns (newCount: nat)
      requires Valid()
      ensures newCount == |Contents() + Concat(items)| + 1
    {
      newCount := Len();
      var i := 0;
      while i < |items|
        invariant 0 <= i <= |items|
        invariant newCount == Len() + |Concat(items[..i])|
      {
        assert items[..i + 1][..i] == items[..i];
        newCount := newCount + |items[i]|;  // items[i].count - 1
        i := i + 1;
      }
      assert items[..|items|] == items;
      newCount := newCount + 1;
    }

    /** The second loop of dac_append_many: copy every item (with its
        terminator) over the current terminator, in order. The room must
        already be reserved. */
    method CopyItems(items: seq<seq<char>>)
      requires Valid() && forall k :: 0 <= k < |items| ==> NoNul(items[k])
      requires count + |Concat(items)| <= capacity
      modifies this`count, buf
      ensures Valid() && buf == old(buf) && capacity == old(capacity)
      ensures Contents() == old(Contents()) + Concat(items)
    {
      ghost var s0 := Contents();
      var i := 0;
      while i < |items|
        invariant 0 <= i <= |items|
        invariant Valid() && buf == old(buf)
        invariant Contents() == s0 + Concat(items[..i])
      {
        assert Concat(items[..i + 1]) == Concat(items[..i]) + items[i] by {
          assert items[..i + 1][..i] == items[..i];
        }
        assert |Concat(items[..i + 1])| <= |Concat(items)| by {
          ConcatAppend(items[..i + 1], items[i + 1..]);
          assert items[..i + 1] + items[i + 1..] == items;
        }
        CopyAtTerminator(items[i]);
        i := i + 1;
      }
      assert items[..i] == items;
    }

    /** dac_append_many: sum the lengths, reserve once for the total, then
        copy every item over the current terminator. */
    method AppendMany(items: seq<seq<char>>)
      requires Valid() && forall k :: 0 <= k < |items| ==> NoNul(items[k])
      modifies this, buf
      ensures Valid() && (buf == old(buf) || fresh(buf))
      ensures Contents() == old(Contents()) + Concat(items)
      ensures count == old(count) + |Concat(items)|
      ensures capacity == GrownCapacity(old(capacity), old(count) + |Concat(items)|)
    {
      var newCount := CountAfter(items);
      ReserveCapacity(newCount);
      CopyItems(items);
      count := newCount;
    }

    /** dac_contains: for every start position, terminator slot included,
        compare bytes until a mismatch, the end of the string, or the end of
        search. An empty search matches at the terminator slot. */
    method Contains(search: Dac) returns (found: bool)
      requires Valid() && search.Valid()
      ensures found <==> IsSubstring(search.Contents(), Contents())
      ensures search.Len() == 0 ==> found
    {
      ghost var s, t := Contents(), search.Contents();
      var i := 0;
      while i < count
        invariant 0 <= i <= count
        invariant search.Len() == 0 ==> i < count
        invariant forall k :: 0 <= k < i && search.Len() > 0 ==> !OccursAt(t, s, k)
      {
        var j := 0;
        var searchLen := search.Len();
        if buf[i] == search.buf[j] {
          while i + j < Len() && j < searchLen && buf[i + j] == search.buf[j]
            invariant 0 <= j <= searchLen && i + j <= count
            invariant j > 0 ==> i + j <= Len()
            invariant forall m :: 0 <= m < j ==> buf[i + m] == search.buf[m]
          {
            j := j + 1;
          }
          if j == searchLen {
            assert s[i..i + j] == t;
            assert OccursAt(t, s, i);
            return true;
          }
        }
        if searchLen > 0 && OccursAt(t, s, i) {
          assert s[i] == t[0];
          assert forall m :: 0 <= m < searchLen ==> s[i + m] == t[m];
        }
        i := i + 1;
      }
      return false;
    }

    /** dac_starts_with: an empty prefix matches only the empty string;
        otherwise compare the first bytes one by one. */
    method StartsWith(prefix: Dac) returns (r: bool)
      requires Valid() && prefix.Valid()
      ensures r == PrefixMatches(Contents(), prefix.Contents())
    {
      if prefix.Len() == 0 {
        return Len() == prefix.Len();
      }
      var i := 0;
      while i < prefix.Len()
        invariant 0 <= i <= prefix.Len()
        invariant i <= Len()
        invariant forall m :: 0 <= m < i ==> buf[m] == prefix.buf[m]
      {
        if !(i < Len() && buf[i] == prefix.buf[i]) {
          return false;
        }
        i := i + 1;
      }
      assert Contents()[..prefix.Len()] == prefix.Contents();
      return true;
    }

    /** dac_ends_with as written: compare the last bytes at the size_t index
        len(s) - 1 - (len(suffix) - 1) + i, which must be > 0 and < len(s).
        An empty suffix matches only the empty string. */
    method EndsWith(suffix: Dac) returns (r: bool)
      requires Valid() && suffix.Valid()
      requires count < SizeModulus && suffix.count < SizeModulus
      ensures r == SuffixMatches(Contents(), suffix.Contents())
    {
      var len, sufLen := Len(), suffix.Len();
      if sufLen == 0 {
        return len == sufLen;
      }
      var i := 0;
      while i < sufLen
        invariant 0 <= i <= sufLen
        invariant i > 0 ==> sufLen < len
        invariant forall m :: 0 <= m < i ==> buf[len - sufLen + m] == suffix.buf[m]
      {
        var at := SuffixIndex(len, sufLen, i);
        if !(at > 0 && at < len && buf[at] == suffix.buf[i]) {
          return false;
        }
        i := i + 1;
      }
      assert Contents()[len - sufLen..] == suffix.Contents();
      return true;
    }

    /** dac_ends_with with the evidently intended bound check `< len(s)`
        alone, so that the suffix may start at index 0. */
    method EndsWithCorrected(suffix: Dac) returns (r: bool)
      requires Valid() && suffix.Valid()
      requires count < SizeModulus && suffix.count < SizeModulus
      ensures r == SuffixMatchesIntended(Contents(), suffix.Contents())
    {
      var len, sufLen := Len(), suffix.Len();
      if sufLen == 0 {
        return len == sufLen;
      }
      var i := 0;
      while i < sufLen
        invariant 0 <= i <= sufLen
        invariant i > 0 ==> sufLen <= len
        invariant forall m :: 0 <= m < i ==> buf[len - sufLen + m] == suffix.buf[m]
      {
        var at := SuffixIndex(len, sufLen, i);
        if !(at < len && buf[at] == suffix.buf[i]) {
          return false;
        }
        i := i + 1;
      }
      assert Contents()[len - sufLen..] == suffix.Contents();
      return true;
    }
  }

  /** Copying a C string (terminator included) over the terminator at index
      at leaves a C string holding the old contents followed by the item. */
  lemma WrittenOverTerminator(before: seq<char>, after: seq<char>, at: nat, item: seq<char>)
    requires at + |item| + 1 <= |after| && |before| == at
    requires after[..at] == before && after[at..at + |item| + 1] == item + [Nul]
    requires NoNul(before) && NoNul(item)
    ensures after[..at + |item|] == before + item
    ensures after[at + |item|] == Nul && NoNul(after[..at + |item|])
  {
    assert after[at..at + |item|] == (item + [Nul])[..|item|];
    assert after[..at + |item|] == after[..at] + after[at..at + |item|];
  }

  /** The size_t index len - 1 - (sl - 1) + i that dac_ends_with computes
      for position i of a suffix of length sl in a string of length len: the
      true offset len - sl + i when that is not negative, otherwise the
      offset wrapped past 2^64. */
  function SuffixIndex(len: nat, sl: nat, i: nat): (at: nat)
    requires len < SizeModulus && 1 <= sl < SizeModulus && i < sl
    ensures at == if len - sl + i >= 0 then len - sl + i else len - sl + i + SizeModulus
  {
    ToSize(ToSize(ToSize(len - 1) - ToSize(sl - 1)) + i)
  }

  /** dac_join: lay the items and the delimiter alternately into a local
      array of 2n - 1 entries, then append them all to dac_new(""). The
      source requires n >= 1 (for n == 0 the array size wraps). */
  method Join(items: seq<seq<char>>, delim: seq<char>) returns (r: Dac)
    requires |items| >= 1 && NoNul(delim)
    requires forall k :: 0 <= k < |items| ==> NoNul(items[k])
    ensures fresh(r) && r.Valid()
    ensures r.Contents() == Joined(items, delim)
  {
    var arrLen := |items| * 2 - 1;
    var arr := new seq<char>[arrLen];
    for i := 0 to arrLen
      invariant forall k :: 0 <= k < i ==> arr[k] == Interleave(items, delim)[k]
    {
      if i % 2 == 0 {
        arr[i] := items[i / 2];
      } else {
        arr[i] := delim;
      }
    }
    assert arr[..] == Interleave(items, delim);
    r := new Dac("\0");
    assert r.Contents() == [];
    ConcatInterleave(items, delim);
    r.AppendMany(arr[..]);
  }
}
