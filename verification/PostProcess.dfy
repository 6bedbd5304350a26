/** Making record values safe for the unquoted CSV report. */
module PostProcess {
  import opened Text

  /** s.replace(c, w) for a single character c */
  function Replace(s: string, c: char, w: string): string {
    if s == "" then "" else (if s[0] == c then w else [s[0]]) + Replace(s[1..], c, w)
  }

  /** The three successive replacements of post_process. */
  function Sanitize(s: string): string {
    Replace(Replace(Replace(s, ',', ";"), '\t', "\\t"), '\n', "\\n")
  }

  function Escape(c: char): string {
    if c == ',' then ";" else if c == '\t' then "\\t" else if c == '\n' then "\\n" else [c]
  }

  /** One pass, character by character. */
  function EscapeAll(s: string): string {
    if s == "" then "" else Escape(s[0]) + EscapeAll(s[1..])
  }

  lemma {:induction false} ReplaceAppend(s: string, t: string, c: char, w: string)
    ensures Replace(s + t, c, w) == Replace(s, c, w) + Replace(t, c, w)
  {
    if s == "" {
      assert s + t == t;
    } else {
      ReplaceAppend(s[1..], t, c, w);
      assert (s + t)[1..] == s[1..] + t;
      var first := if s[0] == c then w else [s[0]];
      var s', t' := Replace(s[1..], c, w), Replace(t, c, w);
      assert first + (s' + t') == first + s' + t';
    }
  }

  lemma {:induction false} ReplaceAbsent(s: string, c: char, w: string)
    requires c !in s
    ensures Replace(s, c, w) == s
  {
    if s != "" {
      ReplaceAbsent(s[1..], c, w);
    }
  }

  /** The three passes do not interfere: together they are one pass over the characters. */
  lemma {:induction false} SanitizeIsOnePass(s: string)
    ensures Sanitize(s) == EscapeAll(s)
  {
    if s != "" {
      var head, tail := [s[0]], s[1..];
      SanitizeIsOnePass(tail);
      assert s == head + tail;
      ReplaceAppend(head, tail, ',', ";");
      var head1, tail1 := Replace(head, ',', ";"), Replace(tail, ',', ";");
      ReplaceAppend(head1, tail1, '\t', "\\t");
      var head2, tail2 := Replace(head1, '\t', "\\t"), Replace(tail1, '\t', "\\t");
      ReplaceAppend(head2, tail2, '\n', "\\n");
      SanitizeChar(s[0]);
    }
  }

  /** A comma becomes a semicolon, tabs and line ends become escapes, and every other character stays. */
  lemma SanitizeChar(c: char)
    ensures Sanitize([c]) == Escape(c)
    ensures Sanitize([c]) == if c == ',' then ";" else if c == '\t' then "\\t" else if c == '\n' then "\\n" else [c]
  {
    var first := if c == ',' then ";" else [c];
    assert [c][1..] == "";
    assert Replace([c], ',', ";") == first;
    assert first[1..] == "";
    var second := if first[0] == '\t' then "\\t" else first;
    assert Replace(first, '\t', "\\t") == second;
    if c == '\n' {
      assert second == [c] && second[1..] == "";
      assert Replace(second, '\n', "\\n") == "\\n" + Replace("", '\n', "\\n");
    } else {
      ReplaceAbsent(second, '\n', "\\n");
    }
  }

  lemma {:induction false} EscapedIsSafe(s: string)
    ensures ',' !in EscapeAll(s) && '\t' !in EscapeAll(s) && '\n' !in EscapeAll(s)
  {
    if s != "" {
      EscapedIsSafe(s[1..]);
    }
  }

  function SanitizeEach(values: seq<string>): (r: seq<string>)
    ensures |r| == |values| && forall i :: 0 <= i < |r| ==> r[i] == Sanitize(values[i])
  {
    seq(|values|, i requires 0 <= i < |values| => Sanitize(values[i]))
  }

  /** A report line of sanitised values splits back into exactly those values, and is one line. */
  lemma ReportLineSplitsBack(values: seq<string>)
    requires values != []
    ensures Split(Join(SanitizeEach(values), ','), ',') == SanitizeEach(values)
    ensures '\n' !in Join(SanitizeEach(values), ',')
  {
    forall i | 0 <= i < |values|
      ensures ',' !in SanitizeEach(values)[i] && '\n' !in SanitizeEach(values)[i]
    {
      SanitizeIsOnePass(values[i]);
      EscapedIsSafe(values[i]);
    }
    SplitJoin(SanitizeEach(values), ',');
    JoinLacks(SanitizeEach(values), ',', '\n');
  }

  lemma {:induction false} JoinLacks(words: seq<string>, sep: char, c: char)
    requires sep != c && forall i :: 0 <= i < |words| ==> c !in words[i]
    ensures c !in Join(words, sep)
  {
    if |words| > 1 {
      JoinLacks(words[1..], sep, c);
    }
  }

  /**
   * A file of such value lines, one record per line, reads back as the same table, whatever the
   * values were. The header line is made of the keys, which are not sanitised.
   */
  lemma ReportReadsBack(table: seq<seq<string>>)
    requires table != [] && forall i :: 0 <= i < |table| ==> table[i] != []
    ensures var lines := Split(Join(ReportLines(table), '\n'), '\n');
            |lines| == |table| && forall i :: 0 <= i < |table| ==> Split(lines[i], ',') == SanitizeEach(table[i])
  {
    forall i | 0 <= i < |table|
      ensures '\n' !in ReportLines(table)[i] && Split(ReportLines(table)[i], ',') == SanitizeEach(table[i])
    {
      ReportLineSplitsBack(table[i]);
    }
    SplitJoin(ReportLines(table), '\n');
  }

  function ReportLines(table: seq<seq<string>>): (lines: seq<string>)
    ensures |lines| == |table| && forall i :: 0 <= i < |table| ==> lines[i] == Join(SanitizeEach(table[i]), ',')
  {
    seq(|table|, i requires 0 <= i < |table| => Join(SanitizeEach(table[i]), ','))
  }
}
