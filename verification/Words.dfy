/** The words of a string: its maximal runs of characters other than a separator. */
module Words {
  import opened Sequences

  /** The characters of `s` before its first separator. */
  function Segment(s: string, sep: char): (n: string)
    ensures |n| <= |s| && n == s[..|n|] && sep !in n
    ensures |n| < |s| ==> s[|n|] == sep
  {
    if s == "" || s[0] == sep then "" else [s[0]] + Segment(s[1..], sep)
  }

  function Words(s: string, sep: char): seq<string>
    decreases |s|
  {
    if s == "" then []
    else if s[0] == sep then Words(s[1..], sep)
    else [Segment(s, sep)] + Words(s[|Segment(s, sep)|..], sep)
  }

  lemma {:induction false} SegmentAppend(p: string, q: string, sep: char)
    requires q == "" || q[0] == sep
    ensures Segment(p + q, sep) == Segment(p, sep)
  {
    if p == "" || p[0] == sep {
      assert p == "" ==> p + q == q;
    } else {
      SegmentAppend(p[1..], q, sep);
      assert (p + q)[1..] == p[1..] + q;
    }
  }

  /** A non-empty string without separators is a word of its own. */
  lemma WordsOfWord(n: string, sep: char)
    requires sep !in n && n != ""
    ensures Segment(n, sep) == n && Words(n, sep) == [n]
  {
  }

  /** The first word of a string, whatever is appended at a separator */
  lemma FirstWord(p: string, q: string, sep: char)
    requires p != "" && p[0] != sep && (q == "" || q[0] == sep)
    ensures Words(p + q, sep) == [Segment(p, sep)] + Words(p[|Segment(p, sep)|..] + q, sep)
  {
    SegmentAppend(p, q, sep);
    DropAppend(p, q, |Segment(p, sep)|);
  }

  /** A string cut in front of a separator has the words of its two parts. */
  lemma {:induction false} WordsAppend(p: string, q: string, sep: char)
    requires q == "" || q[0] == sep
    ensures Words(p + q, sep) == Words(p, sep) + Words(q, sep)
    decreases |p|
  {
    if p == "" {
      assert p + q == q;
    } else if p[0] == sep {
      WordsAppend(p[1..], q, sep);
      assert (p + q)[1..] == p[1..] + q;
    } else {
      var w := Segment(p, sep);
      var rest := p[|w|..];
      FirstWord(p, q, sep);
      WordsAppend(rest, q, sep);
      Associative([w], Words(rest, sep), Words(q, sep));
    }
  }

  function Flatten(words: seq<string>): string {
    if words == [] then "" else words[0] + Flatten(words[1..])
  }

  /** The string without its separators */
  function Without(s: string, sep: char): string {
    if s == "" then "" else (if s[0] == sep then "" else [s[0]]) + Without(s[1..], sep)
  }

  lemma {:induction false} WithoutSegment(s: string, sep: char)
    ensures Without(s, sep) == Segment(s, sep) + Without(s[|Segment(s, sep)|..], sep)
  {
    if s != "" && s[0] != sep {
      WithoutSegment(s[1..], sep);
      assert s[|Segment(s, sep)|..] == s[1..][|Segment(s[1..], sep)|..];
    } else {
      assert s[0..] == s;
    }
  }

  /** Words are not empty, hold no separator, and together are everything else, in order. */
  lemma {:induction false} WordsCover(s: string, sep: char)
    ensures Flatten(Words(s, sep)) == Without(s, sep)
    ensures forall i :: 0 <= i < |Words(s, sep)| ==> Words(s, sep)[i] != "" && sep !in Words(s, sep)[i]
    decreases |s|
  {
    if s != "" && s[0] == sep {
      WordsCover(s[1..], sep);
    } else if s != "" {
      var rest := s[|Segment(s, sep)|..];
      WordsCover(rest, sep);
      WithoutSegment(s, sep);
      assert ([Segment(s, sep)] + Words(rest, sep))[1..] == Words(rest, sep);
    }
  }
}
