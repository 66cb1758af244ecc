/** `systemctl show` output: the line scan and the key=value parser over it. */
module ShowOutput {
  import opened Text

  // A line without one trailing carriage return.
  function TrimCR(line: string): string {
    if line != "" && line[|line| - 1] == '\r' then line[..|line| - 1] else line
  }

  function TrimAll(lines: seq<string>): seq<string> {
    seq(|lines|, i requires 0 <= i < |lines| => TrimCR(lines[i]))
  }

  function Lines(s: string): seq<string> {
    TrimAll(Split(s, '\n'))
  }

  // strings.Index of '=': the length of the line when there is none.
  function Cut(line: string): (n: nat)
    ensures n <= |line|
    ensures '=' !in line[..n]
    ensures n < |line| ==> line[n] == '='
  {
    if line == "" || line[0] == '=' then 0 else 1 + Cut(line[1..])
  }

  predicate IsEntry(line: string) { Cut(line) < |line| }

  function Key(line: string): string { line[..Cut(line)] }

  function Val(line: string): string
    requires IsEntry(line)
  {
    line[Cut(line) + 1..]
  }

  // The map after the lines, a later line replacing an earlier one with its key.
  function Collect(lines: seq<string>): map<string, string> {
    if lines == [] then map[]
    else
      var last := lines[|lines| - 1];
      var m := Collect(lines[..|lines| - 1]);
      if IsEntry(last) then m[Key(last) := Val(last)] else m
  }

  function Parsed(output: string): map<string, string> {
    Collect(Lines(output))
  }

  // ------------------------------------------------------------------ the two loops

  method SplitLines(s: string) returns (out: seq<string>)
    ensures out == Lines(s)
  {
    out := [];
    var start := 0;
    assert s[0..] == s && [] + Lines(s) == Lines(s);
    for i := 0 to |s| + 1
      invariant i <= |s| ==> 0 <= start <= i && '\n' !in s[start..i] && Lines(s) == out + Lines(s[start..])
      invariant i == |s| + 1 ==> out == Lines(s)
    {
      if i == |s| || s[i] == '\n' {
        var line := s[start..i];
        ScanStep(s, out, start, i);
        if |line| > 0 && line[|line| - 1] == '\r' {
          line := line[..|line| - 1];
        }
        out := out + [line];
        start := i + 1;
      } else {
        assert s[start..i + 1] == s[start..i] + [s[i]];
      }
    }
  }

  lemma ScanStep(s: string, out: seq<string>, start: nat, i: nat)
    requires start <= i <= |s| && '\n' !in s[start..i] && (i < |s| ==> s[i] == '\n')
    requires Lines(s) == out + Lines(s[start..])
    ensures Lines(s) == out + [TrimCR(s[start..i])] + if i == |s| then [] else Lines(s[i + 1..])
  {
    LineStep(s, start, i);
  }

  // The line from `start` to a newline, or to the end, is the first of what is left.
  lemma LineStep(s: string, start: nat, i: nat)
    requires start <= i <= |s| && '\n' !in s[start..i] && (i < |s| ==> s[i] == '\n')
    ensures Lines(s[start..]) == [TrimCR(s[start..i])] + if i == |s| then [] else Lines(s[i + 1..])
  {
    if i == |s| {
      assert s[start..] == s[start..i];
      LastLine(s[start..i]);
    } else {
      assert s[start..] == s[start..i] + ['\n'] + s[i + 1..];
      FirstLine(s[start..i], s[i + 1..]);
    }
  }

  lemma LastLine(line: string)
    requires '\n' !in line
    ensures Lines(line) == [TrimCR(line)]
  {
    SplitUnbroken(line, '\n');
  }

  lemma FirstLine(line: string, rest: string)
    requires '\n' !in line
    ensures Lines(line + ['\n'] + rest) == [TrimCR(line)] + Lines(rest)
  {
    SplitUnbroken(line, '\n');
    SplitConcat(line, rest, '\n');
  }

  // The lines are the text again: joined with newlines, after giving each the one carriage return
  // it may have lost.
  lemma LinesExactly(s: string)
    ensures var parts, lines := Split(s, '\n'), Lines(s);
      && Glue(parts, '\n') == s && (forall p <- parts :: '\n' !in p) && |lines| == |parts|
      && forall i :: 0 <= i < |parts| ==>
           if parts[i] != "" && parts[i][|parts[i]| - 1] == '\r' then lines[i] + "\r" == parts[i] else lines[i] == parts[i]
  {
    GlueSplit(s, '\n');
    SplitParts(s, '\n');
  }

  method ParseShow(output: string) returns (result: map<string, string>)
    ensures result == Parsed(output)
  {
    result := map[];
    var lines := SplitLines(output);
    for i := 0 to |lines|
      invariant result == Collect(lines[..i])
    {
      assert lines[..i + 1][..i] == lines[..i];
      var line := lines[i];
      var idx := Cut(line);
      if idx == |line| { continue; }
      result := result[line[..idx] := line[idx + 1..]];
    }
    assert lines[..|lines|] == lines;
  }

  // ------------------------------------------------------------------ the last line wins

  // The line is this key, up to its first "=", with some value.
  predicate Has(line: string, key: string) {
    '=' !in key && key + "=" <= line
  }

  lemma EntryExactly(line: string, key: string)
    ensures IsEntry(line) && Key(line) == key <==> Has(line, key)
    ensures Has(line, key) ==> line == key + "=" + Val(line)
    ensures IsEntry(line) <==> '=' in line
  {
    if Has(line, key) {
      var rest := line[|key| + 1..];
      assert line == key + "=" + rest;
      CutAt(key, rest);
    }
    if '=' in line { FindCut(line); }
  }

  lemma {:induction false} FindCut(line: string)
    requires '=' in line
    ensures Cut(line) < |line|
  {
    if line[0] != '=' { FindCut(line[1..]); }
  }

  // Line i is the last one with the key.
  ghost predicate LastWith(lines: seq<string>, key: string, i: int) {
    0 <= i < |lines| && Has(lines[i], key) && forall j :: i < j < |lines| ==> !Has(lines[j], key)
  }

  lemma LastWithNext(lines: seq<string>, last: string, key: string, i: int)
    ensures Has(last, key) ==> LastWith(lines + [last], key, |lines|)
    ensures !Has(last, key) && LastWith(lines, key, i) ==> LastWith(lines + [last], key, i)
  {}

  lemma KeyNext(lines: seq<string>, last: string, key: string)
    ensures var before, after := Collect(lines), Collect(lines + [last]);
      if Has(last, key) then key in after && last == key + "=" + after[key]
      else (key in after <==> key in before) && (key in before ==> after[key] == before[key])
  {
    EntryExactly(last, key);
    assert (lines + [last])[..|lines|] == lines;
  }

  // For any text: a key is present exactly when some line has it, and its value is that of the
  // last such line.
  lemma {:induction false} LastLineWins(lines: seq<string>, key: string)
    ensures key in Collect(lines) <==> exists l <- lines :: Has(l, key)
    ensures key in Collect(lines) ==> exists i :: LastWith(lines, key, i) && lines[i] == key + "=" + Collect(lines)[key]
  {
    if lines != [] {
      var init, last := lines[..|lines| - 1], lines[|lines| - 1];
      assert lines == init + [last];
      LastLineWins(init, key);
      KeyNext(init, last, key);
      if Has(last, key) {
        LastWithNext(init, last, key, 0);
      } else if key in Collect(init) {
        var i :| LastWith(init, key, i) && init[i] == key + "=" + Collect(init)[key];
        LastWithNext(init, last, key, i);
      }
    }
  }

  // ------------------------------------------------------------------ printing and reading back

  // An entry as printed, with a CRLF or a plain LF ending.
  datatype Entry = Entry(key: string, value: string, crlf: bool)

  function Line(e: Entry): string {
    e.key + "=" + e.value + if e.crlf then "\r" else ""
  }

  function LinesOf(entries: seq<Entry>): seq<string> {
    seq(|entries|, i requires 0 <= i < |entries| => Line(entries[i]))
  }

  function Print(entries: seq<Entry>): string {
    if entries == [] then "" else Line(entries[0]) + "\n" + Print(entries[1..])
  }

  function Table(entries: seq<Entry>): map<string, string> {
    if entries == [] then map[]
    else
      var last := entries[|entries| - 1];
      Table(entries[..|entries| - 1])[last.key := last.value]
  }

  // Can the line be told apart again?
  predicate Readable(e: Entry) {
    '=' !in e.key && '\n' !in e.key && '\n' !in e.value
  }

  // With a plain LF ending, one carriage return at the end of the value is taken for the ending.
  function Survivor(e: Entry): Entry {
    if e.crlf then e else e.(value := TrimCR(e.value))
  }

  // No carriage return at the end of a value printed with a plain LF.
  predicate KeepsItsEnd(e: Entry) {
    e.crlf || e.value == "" || e.value[|e.value| - 1] != '\r'
  }

  function Survivors(entries: seq<Entry>): seq<Entry> {
    seq(|entries|, i requires 0 <= i < |entries| => Survivor(entries[i]))
  }

  ghost predicate DistinctKeys(entries: seq<Entry>) {
    forall i, j :: 0 <= i < j < |entries| ==> entries[i].key != entries[j].key
  }

  lemma {:induction false} CutAt(key: string, rest: string)
    requires '=' !in key
    ensures Cut(key + "=" + rest) == |key|
  {
    if key != "" {
      assert key[0] in key;
      assert (key + "=" + rest)[1..] == key[1..] + "=" + rest;
      CutAt(key[1..], rest);
    }
  }

  lemma LineReadsBack(e: Entry)
    requires '=' !in e.key
    ensures var line := TrimCR(Line(e));
      IsEntry(line) && Key(line) == e.key && Val(line) == Survivor(e).value
  {
    var kept := e.key + "=" + Survivor(e).value;
    assert TrimCR(Line(e)) == kept;
    CutAt(e.key, Survivor(e).value);
  }

  lemma FirstPart(e: Entry, rest: string)
    requires Readable(e)
    ensures Split(Line(e) + "\n" + rest, '\n') == [Line(e)] + Split(rest, '\n')
  {
    SplitUnbroken(Line(e), '\n');
    SplitConcat(Line(e), rest, '\n');
    assert Line(e) + ['\n'] + rest == Line(e) + "\n" + rest;
  }

  lemma {:induction false} PrintedLines(entries: seq<Entry>)
    requires forall e <- entries :: Readable(e)
    ensures Split(Print(entries), '\n') == LinesOf(entries) + [""]
  {
    if entries != [] {
      var first, rest := entries[0], entries[1..];
      assert first in entries && forall e <- rest :: e in entries;
      PrintedLines(rest);
      FirstPart(first, Print(rest));
      assert [Line(first)] + (LinesOf(rest) + [""]) == LinesOf(entries) + [""];
    }
  }

  lemma {:induction false} CollectLines(entries: seq<Entry>)
    requires forall e <- entries :: Readable(e)
    ensures Collect(TrimAll(LinesOf(entries))) == Table(Survivors(entries))
  {
    if entries != [] {
      var init, last := entries[..|entries| - 1], entries[|entries| - 1];
      assert last in entries && forall e <- init :: e in entries;
      CollectLines(init);
      LineReadsBack(last);
      AppendEntry(init, last);
      CollectNext(TrimAll(LinesOf(init)), TrimCR(Line(last)));
      TableNext(Survivors(init), Survivor(last));
      assert init + [last] == entries;
    }
  }

  lemma AppendEntry(init: seq<Entry>, last: Entry)
    ensures TrimAll(LinesOf(init + [last])) == TrimAll(LinesOf(init)) + [TrimCR(Line(last))]
    ensures Survivors(init + [last]) == Survivors(init) + [Survivor(last)]
  {}

  lemma TableNext(init: seq<Entry>, last: Entry)
    ensures Table(init + [last]) == Table(init)[last.key := last.value]
  {
    assert (init + [last])[..|init|] == init;
  }

  lemma CollectNext(lines: seq<string>, line: string)
    requires IsEntry(line)
    ensures Collect(lines + [line]) == Collect(lines)[Key(line) := Val(line)]
  {
    assert (lines + [line])[..|lines|] == lines;
  }

  // Printed entries read back as the table of what survives their endings.
  lemma PrintedReadsBack(entries: seq<Entry>)
    requires forall e <- entries :: Readable(e)
    ensures Parsed(Print(entries)) == Table(Survivors(entries))
  {
    PrintedLines(entries);
    CollectLines(entries);
    var lines := TrimAll(LinesOf(entries));
    assert Lines(Print(entries)) == lines + [""];
    assert (lines + [""])[..|lines|] == lines;
  }

  lemma {:induction false} TableAt(entries: seq<Entry>, i: nat)
    requires DistinctKeys(entries) && i < |entries|
    ensures entries[i].key in Table(entries) && Table(entries)[entries[i].key] == entries[i].value
  {
    if i < |entries| - 1 { TableAt(entries[..|entries| - 1], i); }
  }

  // No parsed key holds "=" or a newline, and no parsed value a newline.
  lemma {:induction false} ParsedIsReadable(lines: seq<string>)
    requires forall l <- lines :: '\n' !in l
    ensures forall k <- Collect(lines) :: '=' !in k && '\n' !in k && '\n' !in Collect(lines)[k]
  {
    if lines != [] {
      assert lines[|lines| - 1] in lines;
      ParsedIsReadable(lines[..|lines| - 1]);
    }
  }

  // Printing a table and parsing it gives the table back, whatever the order and the endings,
  // exactly when every key is free of "=" and newlines, every value of newlines, and no value
  // printed with a plain LF ends in a carriage return.
  lemma ShowRoundTrip(entries: seq<Entry>)
    requires DistinctKeys(entries)
    ensures Parsed(Print(entries)) == Table(entries)
       <==> forall e <- entries :: Readable(e) && KeepsItsEnd(e)
  {
    assert forall e :: KeepsItsEnd(e) <==> Survivor(e) == e;
    if forall e <- entries :: Readable(e) && KeepsItsEnd(e) {
      PrintedReadsBack(entries);
      assert Survivors(entries) == entries;
    }
    if Parsed(Print(entries)) == Table(entries) {
      ReadBackIsReadable(entries);
      ReadBackSurvives(entries);
    }
  }

  lemma ReadBackSurvives(entries: seq<Entry>)
    requires DistinctKeys(entries) && (forall e <- entries :: Readable(e))
    requires Parsed(Print(entries)) == Table(entries)
    ensures forall e <- entries :: Survivor(e) == e
  {
    PrintedReadsBack(entries);
    forall e | e in entries ensures Survivor(e) == e {
      var i :| 0 <= i < |entries| && entries[i] == e;
      SameTableSurvives(entries, i);
    }
  }

  lemma SameTableSurvives(entries: seq<Entry>, i: nat)
    requires DistinctKeys(entries) && i < |entries| && Table(Survivors(entries)) == Table(entries)
    ensures Survivor(entries[i]) == entries[i]
  {
    TableAt(entries, i);
    TableAt(Survivors(entries), i);
  }

  lemma ReadBackIsReadable(entries: seq<Entry>)
    requires DistinctKeys(entries) && Parsed(Print(entries)) == Table(entries)
    ensures forall e <- entries :: Readable(e)
  {
    LinesAreUnbroken(Print(entries));
    ParsedIsReadable(Lines(Print(entries)));
    forall e | e in entries ensures Readable(e) {
      var i :| 0 <= i < |entries| && entries[i] == e;
      TableAt(entries, i);
    }
  }

  lemma LinesAreUnbroken(s: string)
    ensures forall l <- Lines(s) :: '\n' !in l
  {
    SplitParts(s, '\n');
    forall l | l in Lines(s) ensures '\n' !in l {
      var i :| 0 <= i < |Lines(s)| && Lines(s)[i] == l;
      assert Split(s, '\n')[i] in Split(s, '\n');
    }
  }
}
