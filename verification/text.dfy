/** String helpers with Ruby's meaning: `downcase` (ASCII letters only), `rjust` and `Array#join`. */
module Text {

  /** Lower-cases an ASCII capital letter; every other character is left alone. */
  function LowerChar(c: char): char {
    if 'A' <= c <= 'Z' then (c as int + 32) as char else c
  }

  /** `s.downcase`, restricted to ASCII letters. */
  function Downcase(s: string): (r: string)
    ensures |r| == |s|
    ensures forall i :: 0 <= i < |s| ==> r[i] == LowerChar(s[i])
  {
    if s == [] then [] else [LowerChar(s[0])] + Downcase(s[1..])
  }

  /** Reference definition of case-insensitive equality: same length, same letters up to case. */
  predicate SameIgnoringCase(a: string, b: string) {
    |a| == |b| && forall i :: 0 <= i < |a| ==> LowerChar(a[i]) == LowerChar(b[i])
  }

  /** Comparing `s.downcase` with a lower-case word is case-insensitive equality with it. */
  lemma DowncaseEqualsIff(s: string, word: string)
    requires Downcase(word) == word
    ensures Downcase(s) == word <==> SameIgnoringCase(s, word)
  {
    if SameIgnoringCase(s, word) {
      forall i | 0 <= i < |s|
        ensures Downcase(s)[i] == word[i]
      {
        assert word[i] == Downcase(word)[i] == LowerChar(word[i]);
      }
    }
  }

  /** `n` blanks. */
  function Spaces(n: nat): (r: string)
    ensures |r| == n
    ensures forall i :: 0 <= i < n ==> r[i] == ' '
  {
    seq(n, _ => ' ')
  }

  /** `s.rjust(width)`: pads `s` on the left with blanks up to `width`; never truncates. */
  function RJust(s: string, width: nat): (r: string)
    ensures |r| == if |s| < width then width else |s|
    ensures r[|r| - |s|..] == s
    ensures forall i :: 0 <= i < |r| - |s| ==> r[i] == ' '
  {
    if |s| < width then Spaces(width - |s|) + s else s
  }

  /** Drops the leading blanks of `s`. */
  function TrimStart(s: string): (r: string)
    ensures |r| <= |s| && r == s[|s| - |r|..]
    ensures forall i :: 0 <= i < |s| - |r| ==> s[i] == ' '
    ensures r == [] || r[0] != ' '
  {
    if s != [] && s[0] == ' ' then TrimStart(s[1..]) else s
  }

  /** Right-justification is undone by trimming, for any field that does not itself start with a blank. */
  lemma {:induction false} TrimStartRJust(s: string, width: nat)
    requires s == [] || s[0] != ' '
    ensures TrimStart(RJust(s, width)) == s
  {
    var r := RJust(s, width);
    TrimBlanks(r, |r| - |s|);
  }

  /** Trimming a string made of `k` blanks followed by a part that does not start with one leaves that part. */
  lemma {:induction false} TrimBlanks(r: string, k: nat)
    requires k <= |r|
    requires forall i :: 0 <= i < k ==> r[i] == ' '
    requires k == |r| || r[k] != ' '
    ensures TrimStart(r) == r[k..]
    decreases k
  {
    if k > 0 {
      TrimBlanks(r[1..], k - 1);
      assert r[1..][k - 1..] == r[k..];
    }
  }

  /** The total length of `parts`. */
  function TotalLength(parts: seq<string>): nat {
    if parts == [] then 0 else |parts[0]| + TotalLength(parts[1..])
  }

  /** `parts.join(sep)`: the parts in order with one separator between each pair. */
  function Join(parts: seq<string>, sep: string): (r: string)
    ensures |r| == TotalLength(parts) + (if parts == [] then 0 else (|parts| - 1) * |sep|)
  {
    if |parts| == 0 then ""
    else if |parts| == 1 then parts[0]
    else parts[0] + sep + Join(parts[1..], sep)
  }

  /** A join starts with its first part and ends with its last part. */
  lemma {:induction false} JoinEnds(parts: seq<string>, sep: string)
    requires parts != []
    ensures |Join(parts, sep)| >= |parts[0]| && |Join(parts, sep)| >= |parts[|parts| - 1]|
    ensures Join(parts, sep)[..|parts[0]|] == parts[0]
    ensures Join(parts, sep)[|Join(parts, sep)| - |parts[|parts| - 1]|..] == parts[|parts| - 1]
  {
    if |parts| >= 2 {
      var rest := Join(parts[1..], sep);
      JoinEnds(parts[1..], sep);
      assert parts[1..][|parts[1..]| - 1] == parts[|parts| - 1];
      assert Join(parts, sep) == parts[0] + sep + rest;
    }
  }

  /** Joining four parts spells them out with the separator between each pair. */
  lemma JoinFour(a: string, b: string, c: string, d: string, sep: string)
    ensures Join([a, b, c, d], sep) == a + sep + b + sep + c + sep + d
  {
    assert [a, b, c, d][1..] == [b, c, d];
    assert [b, c, d][1..] == [c, d];
    assert [c, d][1..] == [d];
    assert Join([c, d], sep) == c + sep + d;
    assert Join([b, c, d], sep) == b + sep + (c + sep + d);
    assert Join([a, b, c, d], sep) == a + sep + (b + sep + (c + sep + d));
  }

  /** Prefixing the first part of a list prefixes its join. */
  lemma JoinPrefixFirst(x: string, parts: seq<string>, sep: string)
    requires |parts| >= 1
    ensures Join([x + parts[0]] + parts[1..], sep) == x + Join(parts, sep)
  {
    var ps := [x + parts[0]] + parts[1..];
    if |parts| >= 2 {
      assert ps[1..] == parts[1..];
    }
  }
}
