/** Callers of the dac buffer: what the contracts alone let a client prove
    about the values exercised in dac_test.c. */
module DacClient {
  import opened DacSpec
  import opened Dac

  /** dac_new from a string literal (the literal with its terminator). */
  method NewFromLiteral(s: string) returns (d: Dac)
    requires NoNul(s)
    ensures fresh(d) && fresh(d.buf) && d.Valid() && d.Contents() == s
  {
    CStringRoundTrip(s, []);
    d := new Dac(s + [Nul]);
  }

  method NewAndAppend()
  {
    var w := NewFromLiteral("world");
    assert w.Len() == 5;
    var h := NewFromLiteral("hello");
    h.Append(w);
    assert h.Contents() == "helloworld" && h.Len() == 10;
    assert w.Contents() == "world";
  }

  lemma ConcatOfThree(a: seq<char>, b: seq<char>, c: seq<char>)
    ensures Concat([a, b, c]) == a + b + c
  {
    ConcatSnoc2([a], b, c);
    assert [a] + [b, c] == [a, b, c];
    assert [a][..0] == [];
  }

  method AppendManyItems()
  {
    var s := NewFromLiteral("01");
    var items := ["234", "5678", "9abcdef"];
    ConcatOfThree("234", "5678", "9abcdef");
    s.AppendMany(items);
    assert s.Contents() == "0123456789abcdef";
  }

  method JoinWithDelimiter()
  {
    var parts := ["1", "2", "3", "4"];
    var j := Join(parts, ",.,");
    assert Joined(parts[..2], ",.,") == "1,.,2" by {
      assert parts[..2][..1] == ["1"];
    }
    assert Joined(parts[..3], ",.,") == "1,.,2,.,3" by {
      assert parts[..3][..2] == parts[..2];
    }
    assert j.Contents() == "1,.,2,.,3,.,4";
  }

  method ContainsScan()
  {
    var s := NewFromLiteral("Hello world worldd 1234");
    var tail := NewFromLiteral("ldd 1234");
    assert OccursAt("ldd 1234", s.Contents(), 15);
    var found := s.Contains(tail);
    assert found;

    var w := NewFromLiteral("worldd");
    assert OccursAt("worldd", s.Contents(), 12);
    found := s.Contains(w);
    assert found;

    var e := NewFromLiteral("");
    found := s.Contains(e);
    assert found;
  }

  /** Both misses of the test contain a '5', which the string lacks. */
  method ContainsMisses()
  {
    var s := NewFromLiteral("Hello world worldd 1234");
    var over := NewFromLiteral("dd 12345kj");
    MissingCharNotSubstring("dd 12345kj", s.Contents(), '5');
    var found := s.Contains(over);
    assert !found;

    var other := NewFromLiteral("Hello world 12345");
    MissingCharNotSubstring("Hello world 12345", s.Contents(), '5');
    found := s.Contains(other);
    assert !found;
  }

  method PrefixScans()
  {
    var e := NewFromLiteral("");
    var hw := NewFromLiteral("Hello world");
    var p := NewFromLiteral("Hello w");
    var b := hw.StartsWith(p);
    assert b;
    var longer := NewFromLiteral("Hello world2");
    b := hw.StartsWith(longer);
    assert !b;
    b := hw.StartsWith(e);
    assert !b;
  }

  method SuffixScans()
  {
    var e := NewFromLiteral("");
    var hw := NewFromLiteral("Hello world");
    var x := NewFromLiteral("o world");
    var b := hw.EndsWith(x);
    assert b;
    var longer := NewFromLiteral("1Hello world");
    b := hw.EndsWith(longer);
    assert !b;
    b := hw.EndsWith(e);
    assert !b;
  }

  /** The whole string is refused as its own suffix as written, and
      accepted with the corrected bound check. */
  method WholeStringSuffix()
  {
    var hw := NewFromLiteral("Hello world");
    var b := hw.EndsWith(hw);
    assert !b;
    b := hw.EndsWithCorrected(hw);
    assert b;
  }
}
