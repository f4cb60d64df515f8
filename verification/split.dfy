/**
 Ruby's `String#split` with a one-character separator other than a blank (a
 blank makes Ruby split on runs of white space instead): cut at every
 separator, then drop trailing empty fields.
 */
module Split {
  import opened Text

  /** Every field between separators, including empty and trailing ones. */
  function Fields(s: string, sep: char): (fs: seq<string>)
    ensures |fs| >= 1
    ensures forall i :: 0 <= i < |fs| ==> sep !in fs[i]
    decreases |s|
  {
    if |s| == 0 then [""]
    else
      var rest := Fields(s[1..], sep);
      if s[0] == sep then [""] + rest
      else [[s[0]] + rest[0]] + rest[1..]
  }

  /** Joining the fields back with the separator gives the original string. */
  lemma {:induction false} FieldsJoin(s: string, sep: char)
    ensures Join(Fields(s, sep), [sep]) == s
    decreases |s|
  {
    if |s| > 0 {
      var rest := Fields(s[1..], sep);
      FieldsJoin(s[1..], sep);
      assert s == [s[0]] + s[1..];
      if s[0] == sep {
        if |rest| >= 1 { assert ([""] + rest)[1..] == rest; }
      } else {
        JoinPrefixFirst([s[0]], rest, [sep]);
      }
    }
  }

  /** There is one more field than there are separators. */
  lemma {:induction false} FieldsCount(s: string, sep: char)
    ensures |Fields(s, sep)| == multiset(s)[sep] + 1
    decreases |s|
  {
    if |s| > 0 {
      FieldsCount(s[1..], sep);
      assert s == [s[0]] + s[1..];
      assert multiset(s) == multiset([s[0]]) + multiset(s[1..]);
    }
  }

  /** Removes the empty fields at the end of `fs`. */
  function DropTrailingEmpty(fs: seq<string>): (r: seq<string>)
    ensures r <= fs
    ensures r == [] || r[|r| - 1] != ""
    ensures forall i :: |r| <= i < |fs| ==> fs[i] == ""
  {
    if fs == [] then []
    else if fs[|fs| - 1] == "" then DropTrailingEmpty(fs[..|fs| - 1])
    else fs
  }

  /**
   `s.split(sep)` for a one-character separator string other than `" "`: the
   separator-free fields in order, with exactly the empty fields at the end
   removed, so the empty string has none.
   */
  function RubySplit(s: string, sep: char): (r: seq<string>)
    ensures r <= Fields(s, sep)
    ensures forall i :: 0 <= i < |r| ==> sep !in r[i]
    ensures r == [] || r[|r| - 1] != ""
    ensures forall i :: |r| <= i < |Fields(s, sep)| ==> Fields(s, sep)[i] == ""
    ensures s == "" ==> r == []
  {
    DropTrailingEmpty(Fields(s, sep))
  }

  /** A string without the separator is a single field. */
  lemma {:induction false} FieldsNoSeparator(x: string, sep: char)
    requires sep !in x
    ensures Fields(x, sep) == [x]
    decreases |x|
  {
    if |x| > 0 {
      FieldsNoSeparator(x[1..], sep);
      assert [x[0]] + x[1..] == x;
    }
  }

  /** A separator-free prefix followed by a separator becomes the first field. */
  lemma {:induction false} FieldsAfterSeparator(x: string, sep: char, y: string)
    requires sep !in x
    ensures Fields(x + [sep] + y, sep) == [x] + Fields(y, sep)
    decreases |x|
  {
    var s := x + [sep] + y;
    if |x| == 0 {
      assert s[1..] == y;
    } else {
      assert s[1..] == x[1..] + [sep] + y;
      FieldsAfterSeparator(x[1..], sep, y);
      assert [x[0]] + x[1..] == x;
    }
  }

  /** A list whose last field is not empty loses nothing. */
  lemma KeepNonEmptyLast(fs: seq<string>)
    requires fs != [] && fs[|fs| - 1] != ""
    ensures DropTrailingEmpty(fs) == fs
  {
  }

  /** Three separator-free parts, the last non-empty, split back into exactly those three parts. */
  lemma ThreeFields(a: string, b: string, d: string, sep: char)
    requires sep !in a && sep !in b && sep !in d
    requires d != ""
    ensures RubySplit(a + [sep] + b + [sep] + d, sep) == [a, b, d]
  {
    var tail := b + [sep] + d;
    FieldsAfterSeparator(b, sep, d);
    FieldsNoSeparator(d, sep);
    assert Fields(tail, sep) == [b, d];
    FieldsAfterSeparator(a, sep, tail);
    assert a + [sep] + b + [sep] + d == a + [sep] + tail;
    assert Fields(a + [sep] + b + [sep] + d, sep) == [a, b, d];
    KeepNonEmptyLast([a, b, d]);
  }

  /** Two separator-free parts, the last non-empty, split back into exactly those two parts. */
  lemma TwoFields(a: string, b: string, sep: char)
    requires sep !in a && sep !in b
    requires b != ""
    ensures RubySplit(a + [sep] + b, sep) == [a, b]
  {
    FieldsAfterSeparator(a, sep, b);
    FieldsNoSeparator(b, sep);
    assert Fields(a + [sep] + b, sep) == [a, b];
    KeepNonEmptyLast([a, b]);
  }

  /** Splitting the empty string yields no fields at all. */
  lemma SplitEmpty(sep: char)
    ensures RubySplit("", sep) == []
  {
  }

  /** A calendar-impossible and a non-numeric date each split into three parts. */
  lemma ThreePartExamples()
    ensures |RubySplit("2023-02-30", '-')| == 3
    ensures |RubySplit("aa-bb-cc", '-')| == 3
  {
    assert "2023-02-30" == "2023" + ['-'] + "02" + ['-'] + "30";
    ThreeFields("2023", "02", "30", '-');
    assert "aa-bb-cc" == "aa" + ['-'] + "bb" + ['-'] + "cc";
    ThreeFields("aa", "bb", "cc", '-');
  }

  /** A year and month without a day split into two parts. */
  lemma TwoPartExample()
    ensures |RubySplit("2023-02", '-')| == 2
  {
    assert "2023-02" == "2023" + ['-'] + "02";
    TwoFields("2023", "02", '-');
  }
}
