/** Splitting, joining and replacing in strings, as Go's `strings` package does.
    Go strings are bytes; only ASCII bytes are ever looked at, so a `char` stands for a byte. */
module Text {

  // strings.Split with a one-byte separator: always at least one part.
  function Split(s: string, sep: char): (parts: seq<string>)
    ensures |parts| >= 1
  {
    if s == "" then [""]
    else
      var rest := Split(s[1..], sep);
      if s[0] == sep then [""] + rest else [[s[0]] + rest[0]] + rest[1..]
  }

  // strings.Join with a one-byte separator.
  function Glue(parts: seq<string>, sep: char): string {
    if |parts| == 0 then ""
    else if |parts| == 1 then parts[0]
    else parts[0] + [sep] + Glue(parts[1..], sep)
  }

  // strings.ReplaceAll of one byte by another.
  function Replace(s: string, from: char, to: char): (r: string)
    ensures |r| == |s|
  {
    seq(|s|, i requires 0 <= i < |s| => if s[i] == from then to else s[i])
  }

  // A separator between two texts separates their parts.
  lemma {:induction false} SplitConcat(a: string, b: string, sep: char)
    ensures Split(a + [sep] + b, sep) == Split(a, sep) + Split(b, sep)
  {
    var whole := a + [sep] + b;
    if a == "" {
      assert whole[1..] == b;
    } else {
      assert whole[1..] == a[1..] + [sep] + b;
      SplitConcat(a[1..], b, sep);
    }
  }

  lemma {:induction false} SplitUnbroken(s: string, sep: char)
    requires sep !in s
    ensures Split(s, sep) == [s]
  {
    if s != "" {
      SplitUnbroken(s[1..], sep);
      assert s == [s[0]] + s[1..];
    }
  }

  // No part of a split holds the separator.
  lemma {:induction false} SplitParts(s: string, sep: char)
    ensures forall p <- Split(s, sep) :: sep !in p
  {
    if s != "" {
      SplitParts(s[1..], sep);
      var rest := Split(s[1..], sep);
      assert rest[0] in rest;
      forall p | p in Split(s, sep) ensures sep !in p {
        assert p == "" || p == [s[0]] + rest[0] || p in rest;
      }
    }
  }

  // Joining undoes splitting, for every text.
  lemma {:induction false} GlueSplit(s: string, sep: char)
    ensures Glue(Split(s, sep), sep) == s
  {
    if s != "" {
      GlueSplit(s[1..], sep);
      var rest := Split(s[1..], sep);
      if s[0] == sep {
        assert ([""] + rest)[1..] == rest;
      } else if |rest| > 1 {
        assert ([[s[0]] + rest[0]] + rest[1..])[1..] == rest[1..];
      }
    }
  }

  // Splitting undoes joining, for separator-free parts.
  lemma {:induction false} SplitGlue(parts: seq<string>, sep: char)
    requires parts != []
    requires forall p <- parts :: sep !in p
    ensures Split(Glue(parts, sep), sep) == parts
  {
    SplitUnbroken(parts[0], sep);
    if |parts| > 1 {
      SplitGlue(parts[1..], sep);
      SplitConcat(parts[0], Glue(parts[1..], sep), sep);
    }
  }
}
