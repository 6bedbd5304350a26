/**
 * Reading SAAF responses back from invocation logs. A log is the list of its lines; JSON
 * parsing is an uninterpreted function of the block's text.
 */
module SaafLogs {
  import opened Wrappers
  import opened Decimal
  import opened Text

  const BOX: char := '\U{2500}'

  /** What str.strip() and the pattern \s take for white space. */
  predicate IsSpace(c: char) {
    || '\t' <= c <= '\r' || '\U{1C}' <= c <= ' ' || c == '\U{85}' || c == '\U{A0}' || c == '\U{1680}'
    || '\U{2000}' <= c <= '\U{200A}' || c == '\U{2028}' || c == '\U{2029}' || c == '\U{202F}'
    || c == '\U{205F}' || c == '\U{3000}'
  }

  function SkipSpace(s: string): string {
    if s != "" && IsSpace(s[0]) then SkipSpace(s[1..]) else s
  }

  function TrimEnd(s: string): string {
    if s != "" && IsSpace(s[|s| - 1]) then TrimEnd(s[..|s| - 1]) else s
  }

  function Strip(s: string): string {
    TrimEnd(SkipSpace(s))
  }

  ghost predicate AllSpace(s: string) {
    forall i :: 0 <= i < |s| ==> IsSpace(s[i])
  }

  /** The text neither starts nor ends with white space. */
  predicate Trimmed(s: string) {
    s == "" || (!IsSpace(s[0]) && !IsSpace(s[|s| - 1]))
  }

  lemma {:induction false} SkipMargin(a: string, s: string)
    requires AllSpace(a) && (s != "" ==> !IsSpace(s[0]))
    ensures SkipSpace(a + s) == s
  {
    if a == "" {
      assert a + s == s;
    } else {
      SkipMargin(a[1..], s);
      assert (a + s)[1..] == a[1..] + s;
    }
  }

  lemma {:induction false} TrimMargin(s: string, b: string)
    requires AllSpace(b) && (s != "" ==> !IsSpace(s[|s| - 1]))
    ensures TrimEnd(s + b) == s
  {
    if b == "" {
      assert s + b == s;
    } else {
      var n := |b| - 1;
      TrimMargin(s, b[..n]);
      assert (s + b)[..|s| + n] == s + b[..n];
    }
  }

  /** Stripping takes off exactly the white space at both ends. */
  lemma StripsMargins(a: string, s: string, b: string)
    requires AllSpace(a) && AllSpace(b) && Trimmed(s)
    ensures Strip(a + s + b) == s
  {
    if s == "" {
      assert AllSpace(a + s + b);
      SkipMargin(a + s + b, "");
      assert a + s + b + "" == a + s + b;
    } else {
      SkipMargin(a, s + b);
      assert a + s + b == a + (s + b);
      TrimMargin(s, b);
    }
  }

  function SkipBox(s: string): string {
    if s != "" && s[0] == BOX then SkipBox(s[1..]) else s
  }

  predicate StartsRule(s: string) {
    |s| >= 2 && s[0] == BOX && s[1] == BOX
  }

  const TITLE: string := "Lambda Response"

  /** ^──+\s*Lambda Response\s*──+ on the stripped line */
  predicate IsHeader(line: string) {
    var t := Strip(line);
    && StartsRule(t)
    && var u := SkipSpace(SkipBox(t)); TITLE <= u && StartsRule(SkipSpace(u[|TITLE|..]))
  }

  /** ^──+\s*$ on the stripped line */
  predicate IsFooter(line: string) {
    var t := Strip(line);
    StartsRule(t) && SkipSpace(SkipBox(t)) == ""
  }

  /**
   * What becomes of a block's text: not JSON; a warm or a cold start; a newcontainer field int()
   * rejects with ValueError; or an object on which .get or int() raises anything else.
   */
  datatype Parsed<+T> = NotJson | Warm(obj: T) | Cold | BadCount | Raises

  /** "\n".join(block_lines).strip() */
  function Blob(block: seq<string>): string {
    Strip(Join(block, '\n'))
  }

  /** The text of a block is its lines: split at the line ends, it gives them back. */
  lemma BlobIsLines(block: seq<string>)
    requires block != [] && forall i :: 0 <= i < |block| ==> '\n' !in block[i]
    requires Trimmed(Join(block, '\n'))
    ensures Split(Blob(block), '\n') == block
  {
    StripsMargins("", Join(block, '\n'), "");
    assert "" + Join(block, '\n') + "" == Join(block, '\n');
    SplitJoin(block, '\n');
  }

  /** The closed blocks of a log, in order, from the parser state (inBlock, block). */
  function Blocks(lines: seq<string>, inBlock: bool, block: seq<string>): seq<seq<string>> {
    if lines == [] then []
    else if !inBlock then Blocks(lines[1..], IsHeader(lines[0]), if IsHeader(lines[0]) then [] else block)
    else if IsFooter(lines[0]) then [block] + Blocks(lines[1..], false, block)
    else Blocks(lines[1..], true, block + [lines[0]])
  }

  /** The warm-start objects of a list of blocks. */
  function Kept<T>(blocks: seq<seq<string>>, parse: string -> Parsed<T>): seq<T> {
    if blocks == [] then []
    else
      var n := |blocks| - 1;
      var p := parse(Blob(blocks[n]));
      Kept(blocks[..n], parse) + if p.Warm? then [p.obj] else []
  }

  ghost predicate Harmless<T>(blocks: seq<seq<string>>, parse: string -> Parsed<T>) {
    forall i :: 0 <= i < |blocks| ==> !parse(Blob(blocks[i])).Raises?
  }

  /** What one log contributes: its closed blocks when it is readable, else nothing. */
  function BlocksOf(file: Option<seq<string>>): seq<seq<string>> {
    if file.Some? then Blocks(file.value, false, []) else []
  }

  /** Closed blocks of all readable logs; unreadable files are skipped. */
  function AllBlocks(files: seq<Option<seq<string>>>): seq<seq<string>> {
    if files == [] then []
    else
      var n := |files| - 1;
      AllBlocks(files[..n]) + BlocksOf(files[n])
  }

  lemma {:induction false} KeptAppend<T>(a: seq<seq<string>>, b: seq<seq<string>>, parse: string -> Parsed<T>)
    ensures Kept(a + b, parse) == Kept(a, parse) + Kept(b, parse)
  {
    if b == [] {
      assert a + b == a;
    } else {
      var n := |b| - 1;
      KeptAppend(a, b[..n], parse);
      assert (a + b)[..|a + b| - 1] == a + b[..n];
    }
  }

  /** Of one block, exactly a warm-start object is kept. */
  lemma KeptOne<T>(block: seq<string>, parse: string -> Parsed<T>)
    ensures Kept([block], parse) == if parse(Blob(block)).Warm? then [parse(Blob(block)).obj] else []
  {
    assert [block][..0] == [];
  }

  /** Files contribute their blocks one after the other. */
  lemma {:induction false} AllBlocksAppend(a: seq<Option<seq<string>>>, b: seq<Option<seq<string>>>)
    ensures AllBlocks(a + b) == AllBlocks(a) + AllBlocks(b)
  {
    hide BlocksOf;
    if b == [] {
      assert a + b == a;
    } else {
      var n := |b| - 1;
      AllBlocksAppend(a, b[..n]);
      assert (a + b)[..|a| + n] == a + b[..n] && (a + b)[|a| + n] == b[n];
      assert AllBlocks(a + b) == AllBlocks(a) + AllBlocks(b[..n]) + BlocksOf(b[n]);
      assert AllBlocks(b) == AllBlocks(b[..n]) + BlocksOf(b[n]);
    }
  }

  /** Of one file, the closed blocks of its lines, unless it cannot be read. */
  lemma AllBlocksOne(file: Option<seq<string>>)
    ensures AllBlocks([file]) == if file.Some? then Blocks(file.value, false, []) else []
  {
    hide Blocks;
    assert [file][..0] == [];
  }

  /** One log: the warm-start objects of its closed blocks, or failure at the first that raises. */
  method LoadLog<T>(lines: seq<string>, parse: string -> Parsed<T>) returns (r: Option<seq<T>>)
    ensures r.Some? <==> Harmless(Blocks(lines, false, []), parse)
    ensures r.Some? ==> r.value == Kept(Blocks(lines, false, []), parse)
  {
    hide IsHeader, IsFooter, Blob;
    var results: seq<T> := [];
    var inBlock := false;
    var blockLines := [];
    ghost var closed: seq<seq<string>> := [];
    for i := 0 to |lines|
      invariant Blocks(lines, false, []) == closed + Blocks(lines[i..], inBlock, blockLines)
      invariant Harmless(closed, parse) && results == Kept(closed, parse)
    {
      var line := lines[i];
      assert lines[i..][1..] == lines[i + 1..];
      if !inBlock {
        if IsHeader(line) {
          inBlock := true;
          blockLines := [];
        }
      } else {
        if IsFooter(line) {
          var p := parse(Blob(blockLines));
          if p.Raises? {
            assert Blocks(lines, false, [])[|closed|] == blockLines;
            return None;
          }
          if p.Warm? {
            results := results + [p.obj];
          }
          assert (closed + [blockLines])[..|closed|] == closed;
          closed := closed + [blockLines];
          inBlock := false;
        } else {
          blockLines := blockLines + [line];
        }
      }
    }
    assert closed + Blocks(lines[|lines|..], inBlock, blockLines) == closed;
    r := Some(results);
  }

  /** load_saaf_logs over the logs in file-name order. */
  method LoadSaafLogs<T>(files: seq<Option<seq<string>>>, parse: string -> Parsed<T>) returns (r: Option<seq<T>>)
    ensures r.Some? <==> Harmless(AllBlocks(files), parse)
    ensures r.Some? ==> r.value == Kept(AllBlocks(files), parse)
  {
    hide Blocks, Kept, Blob;
    var results: seq<T> := [];
    assert AllBlocks(files[..0]) == [];
    KeptNone(parse);
    for i := 0 to |files|
      invariant Harmless(AllBlocks(files[..i]), parse)
      invariant results == Kept(AllBlocks(files[..i]), parse)
    {
      assert files[..i + 1][..i] == files[..i];
      if files[i].Some? {
        var one := LoadLog(files[i].value, parse);
        if one.None? {
          RaisesInPrefix(files, i, parse);
          return None;
        }
        KeptAppend(AllBlocks(files[..i]), Blocks(files[i].value, false, []), parse);
        results := results + one.value;
      } else {
        assert AllBlocks(files[..i + 1]) == AllBlocks(files[..i]);
      }
    }
    assert files[..|files|] == files;
    r := Some(results);
  }

  lemma KeptNone<T>(parse: string -> Parsed<T>)
    ensures Kept([], parse) == []
  {
  }

  lemma RaisesInPrefix<T>(files: seq<Option<seq<string>>>, i: nat, parse: string -> Parsed<T>)
    requires i < |files| && files[i].Some? && !Harmless(Blocks(files[i].value, false, []), parse)
    ensures !Harmless(AllBlocks(files), parse)
  {
    hide Blocks, Harmless, AllBlocks;
    BlocksOfPrefix(files, i + 1);
    OneMoreFile(files, i);
    var before, here := AllBlocks(files[..i]), Blocks(files[i].value, false, []);
    var rest := AllBlocks(files)[|before + here|..];
    assert AllBlocks(files) == before + here + rest;
    HarmStays(before, here, rest, parse);
  }

  lemma OneMoreFile(files: seq<Option<seq<string>>>, i: nat)
    requires i < |files|
    ensures AllBlocks(files[..i + 1]) == AllBlocks(files[..i]) + BlocksOf(files[i])
  {
    hide Blocks;
    assert files[..i + 1][..i] == files[..i];
  }

  lemma HarmStays<T>(a: seq<seq<string>>, b: seq<seq<string>>, c: seq<seq<string>>, parse: string -> Parsed<T>)
    requires !Harmless(b, parse)
    ensures !Harmless(a + b + c, parse)
  {
    hide Blob;
    var j :| 0 <= j < |b| && parse(Blob(b[j])).Raises?;
    assert (a + b + c)[|a| + j] == b[j];
  }

  lemma {:induction false} BlocksOfPrefix(files: seq<Option<seq<string>>>, i: nat)
    requires i <= |files|
    ensures AllBlocks(files[..i]) <= AllBlocks(files)
    decreases |files|
  {
    if i == |files| {
      assert files[..i] == files;
    } else {
      BlocksOfPrefix(files[..|files| - 1], i);
      assert files[..|files| - 1][..i] == files[..i];
    }
  }

  // ----- Round trip

  /** What a log in the documented format is made of. */
  datatype Item = Noise(line: string) | Response(header: string, body: seq<string>, footer: string)

  ghost predicate Framed(item: Item) {
    match item
    case Noise(line) => !IsHeader(line)
    case Response(header, body, footer) =>
      IsHeader(header) && IsFooter(footer) && forall i :: 0 <= i < |body| ==> !IsFooter(body[i])
  }

  ghost predicate AllFramed(items: seq<Item>) {
    forall i :: 0 <= i < |items| ==> Framed(items[i])
  }

  function ItemLines(item: Item): seq<string> {
    match item
    case Noise(line) => [line]
    case Response(header, body, footer) => [header] + body + [footer]
  }

  function Write(items: seq<Item>): seq<string> {
    if items == [] then [] else ItemLines(items[0]) + Write(items[1..])
  }

  function Bodies(items: seq<Item>): seq<seq<string>> {
    if items == [] then []
    else (if items[0].Response? then [items[0].body] else []) + Bodies(items[1..])
  }

  /** Inside a block, footer-free lines are collected up to the footer. */
  lemma {:induction false} BodyThen(body: seq<string>, rest: seq<string>, block: seq<string>)
    requires forall i :: 0 <= i < |body| ==> !IsFooter(body[i])
    ensures Blocks(body + rest, true, block) == Blocks(rest, true, block + body)
    decreases |body|
  {
    if body == [] {
      assert body + rest == rest && block + body == block;
    } else {
      assert (body + rest)[1..] == body[1..] + rest;
      assert block + [body[0]] + body[1..] == block + body;
      BodyThen(body[1..], rest, block + [body[0]]);
    }
  }

  lemma {:induction false} BlockIrrelevantOutside(lines: seq<string>, block: seq<string>)
    ensures Blocks(lines, false, block) == Blocks(lines, false, [])
  {
    if lines != [] && !IsHeader(lines[0]) {
      BlockIrrelevantOutside(lines[1..], block);
    }
  }

  lemma ItemThen(item: Item, rest: seq<string>)
    requires Framed(item)
    ensures Blocks(ItemLines(item) + rest, false, [])
            == (if item.Response? then [item.body] else []) + Blocks(rest, false, [])
  {
    hide IsHeader, IsFooter;
    var lines := ItemLines(item) + rest;
    match item
    case Noise(line) =>
      assert lines[1..] == rest;
    case Response(header, body, footer) =>
      var afterBody := [footer] + rest;
      assert lines[1..] == body + afterBody;
      BodyThen(body, afterBody, []);
      assert afterBody[1..] == rest;
      assert [] + body == body;
      BlockIrrelevantOutside(rest, body);
  }

  lemma WriteFirst(items: seq<Item>, rest: seq<string>)
    requires items != [] && AllFramed(items)
    ensures Framed(items[0]) && AllFramed(items[1..])
    ensures Write(items) + rest == ItemLines(items[0]) + (Write(items[1..]) + rest)
    ensures Bodies(items) == (if items[0].Response? then [items[0].body] else []) + Bodies(items[1..])
  {
    hide ItemLines, Framed;
  }

  lemma WriteNothing(rest: seq<string>)
    ensures Write([]) + rest == rest && Bodies([]) == []
  {
  }

  lemma {:induction false} WriteThen(items: seq<Item>, rest: seq<string>)
    requires AllFramed(items)
    ensures Blocks(Write(items) + rest, false, []) == Bodies(items) + Blocks(rest, false, [])
  {
    hide *;
    if items == [] {
      WriteNothing(rest);
      assert [] + Blocks(rest, false, []) == Blocks(rest, false, []);
    } else {
      WriteFirst(items, rest);
      WriteThen(items[1..], rest);
      ItemThen(items[0], Write(items[1..]) + rest);
      var first := if items[0].Response? then [items[0].body] else [];
      assert first + (Bodies(items[1..]) + Blocks(rest, false, [])) == Bodies(items) + Blocks(rest, false, []);
    }
  }

  /**
   * Round trip: parsing a log written in the documented format finds exactly the bodies of its
   * responses, in order; an unclosed block at the end adds nothing.
   */
  lemma ParseInvertsWrite(items: seq<Item>, header: string, tail: seq<string>)
    requires AllFramed(items) && IsHeader(header)
    requires forall i :: 0 <= i < |tail| ==> !IsFooter(tail[i])
    ensures Blocks(Write(items), false, []) == Bodies(items)
    ensures Blocks(Write(items) + [header] + tail, false, []) == Bodies(items)
  {
    hide *;
    WriteThen(items, []);
    NoLinesNoBlocks();
    assert Write(items) + [] == Write(items);
    var open := [header] + tail;
    WriteThen(items, open);
    OpenBlockIsIgnored(header, tail);
    assert Write(items) + open == Write(items) + [header] + tail;
  }

  lemma NoLinesNoBlocks()
    ensures Blocks([], false, []) == []
  {
  }

  lemma OpenBlockIsIgnored(header: string, tail: seq<string>)
    requires IsHeader(header) && forall i :: 0 <= i < |tail| ==> !IsFooter(tail[i])
    ensures Blocks([header] + tail, false, []) == []
  {
    hide IsHeader, IsFooter;
    assert ([header] + tail)[1..] == tail;
    BodyThen(tail, [], []);
    assert tail + [] == tail;
  }

  /** Margins around a line change nothing for header and footer. */
  lemma MarginsIgnored(a: string, line: string, b: string)
    requires AllSpace(a) && AllSpace(b) && Trimmed(line)
    ensures IsHeader(a + line + b) <==> IsHeader(line)
    ensures IsFooter(a + line + b) <==> IsFooter(line)
  {
    StripsMargins(a, line, b);
    StripsMargins("", line, "");
    assert "" + line + "" == line;
  }

  // ----- Concrete frames

  function Rule(n: nat): (s: string)
    ensures |s| == n && forall i :: 0 <= i < n ==> s[i] == BOX
  {
    seq(n, i => BOX)
  }

  lemma {:induction false} SkipRule(n: nat, rest: string)
    requires rest != "" ==> rest[0] != BOX
    ensures SkipBox(Rule(n) + rest) == rest
  {
    if n == 0 {
      assert Rule(n) + rest == rest;
    } else {
      SkipRule(n - 1, rest);
      assert (Rule(n) + rest)[1..] == Rule(n - 1) + rest;
    }
  }

  /** A line that neither starts nor ends with white space is its own strip. */
  lemma StripNothing(s: string)
    requires s != "" && !IsSpace(s[0]) && !IsSpace(s[|s| - 1])
    ensures Strip(s) == s
  {
  }

  /** Behind a rule and the title, a line is a header exactly when another rule follows. */
  lemma HeaderByWhatFollows(left: nat, after: string)
    requires left >= 2 && after != "" && !IsSpace(after[|after| - 1])
    ensures IsHeader(Rule(left) + " " + TITLE + after) <==> StartsRule(SkipSpace(after))
  {
    hide IsHeader, Strip, SkipBox, SkipSpace;
    var line := Rule(left) + " " + TITLE + after;
    Regroup(Rule(left), " ", TITLE, after);
    assert TITLE[0] == 'L';
    assert line[0] == BOX && line[|line| - 1] == after[|after| - 1];
    StripNothing(line);
    RuleThenTitle(left, TITLE + after);
    HeaderShape(line, after);
  }

  lemma Regroup(a: string, b: string, c: string, d: string)
    ensures a + b + c + d == a + (b + (c + d))
  {
  }

  lemma RuleThenTitle(left: nat, title: string)
    requires left >= 2 && title != "" && !IsSpace(title[0])
    ensures SkipSpace(SkipBox(Rule(left) + (" " + title))) == title
    ensures StartsRule(Rule(left) + (" " + title))
  {
    SkipRule(left, " " + title);
    SkipOneBlank(title);
  }

  lemma HeaderShape(line: string, after: string)
    requires StartsRule(line) && Strip(line) == line && SkipSpace(SkipBox(line)) == TITLE + after
    ensures IsHeader(line) <==> StartsRule(SkipSpace(after))
  {
    hide Strip, SkipBox, SkipSpace;
    assert (TITLE + after)[|TITLE|..] == after;
  }

  lemma SkipOneBlank(s: string)
    requires s != "" && !IsSpace(s[0])
    ensures SkipSpace(" " + s) == s
  {
    assert (" " + s)[1..] == s;
  }

  /** The header of the documented format, with rules of any length from two up. */
  lemma DocumentedHeader(left: nat, right: nat)
    requires left >= 2 && right >= 2
    ensures IsHeader(Rule(left) + " " + TITLE + " " + Rule(right))
  {
    hide IsHeader;
    SkipOneBlank(Rule(right));
    HeaderByWhatFollows(left, " " + Rule(right));
    assert Rule(left) + " " + TITLE + " " + Rule(right) == Rule(left) + " " + TITLE + (" " + Rule(right));
  }

  /** Its footer, which is no header. */
  lemma DocumentedFooter(n: nat)
    requires n >= 2
    ensures IsFooter(Rule(n)) && !IsHeader(Rule(n))
  {
    StripNothing(Rule(n));
    SkipRule(n, "");
    assert Rule(n) + "" == Rule(n);
  }

  // ----- The two patterns

  /** Text of the form ──+\s*Lambda Response\s*──+ followed by anything. */
  ghost predicate HeaderText(s: string, n: nat, a: string, b: string, rest: string) {
    n >= 2 && AllSpace(a) && AllSpace(b) && s == Rule(n) + (a + (TITLE + (b + (Rule(2) + rest))))
  }

  ghost predicate FooterText(s: string, n: nat, a: string) {
    n >= 2 && AllSpace(a) && s == Rule(n) + a
  }

  /** Headers are exactly the lines whose stripped text has that form. */
  lemma HeaderIsPattern(line: string)
    ensures IsHeader(line) <==> exists n, a, b, rest :: HeaderText(Strip(line), n, a, b, rest)
  {
    hide IsHeader, Strip;
    if IsHeader(line) {
      var n, a, b, rest := HeaderParts(line);
    }
    if exists n, a, b, rest :: HeaderText(Strip(line), n, a, b, rest) {
      var n, a, b, rest :| HeaderText(Strip(line), n, a, b, rest);
      HeaderFromParts(line, n, a, b, rest);
    }
  }

  /** Footers are exactly the lines whose stripped text is a rule, with white space behind it. */
  lemma FooterIsPattern(line: string)
    ensures IsFooter(line) <==> exists n, a :: FooterText(Strip(line), n, a)
  {
    hide Strip, SkipBox, SkipSpace;
    var t := Strip(line);
    if IsFooter(line) {
      var n := RuleOf(t);
      var a := SpaceOf(SkipBox(t));
      assert a + "" == a;
      assert FooterText(t, n, a);
    }
    if exists n, a :: FooterText(t, n, a) {
      var n, a :| FooterText(t, n, a);
      SkipRule(n, a);
      SkipMargin(a, "");
      assert a + "" == a && t[0] == t[1] == BOX;
    }
  }

  lemma HeaderParts(line: string) returns (n: nat, a: string, b: string, rest: string)
    requires IsHeader(line)
    ensures HeaderText(Strip(line), n, a, b, rest)
  {
    hide Strip, SkipBox, SkipSpace;
    var t := Strip(line);
    n := RuleOf(t);
    a := SpaceOf(SkipBox(t));
    var u := SkipSpace(SkipBox(t));
    b := SpaceOf(u[|TITLE|..]);
    var v := SkipSpace(u[|TITLE|..]);
    rest := v[2..];
    assert v == Rule(2) + rest;
    assert u == TITLE + u[|TITLE|..];
  }

  lemma HeaderFromParts(line: string, n: nat, a: string, b: string, rest: string)
    requires HeaderText(Strip(line), n, a, b, rest)
    ensures IsHeader(line)
  {
    hide Strip, SkipBox, SkipSpace;
    var t, tail := Strip(line), b + (Rule(2) + rest);
    assert TITLE[0] == 'L' && (TITLE + tail)[0] == 'L';
    SkipRule(n, a + (TITLE + tail));
    SkipMargin(a, TITLE + tail);
    SkipMargin(b, Rule(2) + rest);
    assert (TITLE + tail)[|TITLE|..] == tail;
    assert t[0] == t[1] == BOX;
  }

  /** The rule a text starts with. */
  lemma {:induction false} RuleOf(s: string) returns (n: nat)
    ensures s == Rule(n) + SkipBox(s) && (StartsRule(s) ==> n >= 2)
  {
    if s != "" && s[0] == BOX {
      n := RuleOf(s[1..]);
      assert Rule(n + 1) == [BOX] + Rule(n);
      assert s == [BOX] + s[1..];
      n := n + 1;
    } else {
      n := 0;
      assert Rule(0) + s == s;
    }
  }

  /** The white space a text starts with. */
  lemma {:induction false} SpaceOf(s: string) returns (a: string)
    ensures s == a + SkipSpace(s) && AllSpace(a)
  {
    if s != "" && IsSpace(s[0]) {
      a := SpaceOf(s[1..]);
      a := [s[0]] + a;
      assert s == [s[0]] + s[1..];
    } else {
      a := "";
      assert "" + s == s;
    }
  }

  // ----- What invoke.sh prints

  /** Its header, with rules of any length. */
  function InvokeHeader(k: nat, left: nat, right: nat): string {
    Rule(left) + " " + TITLE + " (instance " + Dec(k) + ") " + Rule(right)
  }

  /** It names the instance, and is therefore not recognised. */
  lemma InvokeHeaderNotRecognised(k: nat, left: nat, right: nat)
    requires left >= 2 && right >= 1
    ensures !IsHeader(InvokeHeader(k, left, right))
  {
    hide IsHeader, Dec, Rule, SkipSpace;
    var named := "(instance " + Dec(k) + ") " + Rule(right);
    SkipOneBlank(named);
    assert named[0] == '(' && named[|named| - 1] == BOX;
    HeaderByWhatFollows(left, " " + named);
    SpacedName(Rule(left) + " " + TITLE, Dec(k), Rule(right));
  }

  lemma SpacedName(before: string, id: string, rule: string)
    ensures before + " (instance " + id + ") " + rule == before + (" " + ("(instance " + id + ") " + rule))
  {
    assert " (instance " == " " + "(instance ";
  }

  /** Whether a header is among the lines. */
  ghost predicate HasHeader(lines: seq<string>) {
    exists i :: 0 <= i < |lines| && IsHeader(lines[i])
  }

  /** A log that ends with a footer has a closed block exactly when a block was opened. */
  lemma {:induction false} ClosedWhenOpened(lines: seq<string>, inBlock: bool, block: seq<string>)
    requires lines != [] && IsFooter(lines[|lines| - 1]) && !IsHeader(lines[|lines| - 1])
    ensures Blocks(lines, inBlock, block) != [] <==> inBlock || HasHeader(lines)
  {
    hide IsHeader, IsFooter;
    assert lines == [lines[0]] + lines[1..];
    HeaderBehind(lines[0], lines[1..]);
    if |lines| > 1 && (inBlock ==> !IsFooter(lines[0])) {
      var opens := inBlock || IsHeader(lines[0]);
      ClosedWhenOpened(lines[1..], opens,
                       if inBlock then block + [lines[0]] else if opens then [] else block);
    } else if !inBlock {
      assert Blocks(lines[1..], false, block) == [];
      NoLinesNoHeader();
    }
  }

  /** Behind a closing footer the parser starts afresh. */
  lemma {:induction false} BlocksBehindFooter(lines: seq<string>, inBlock: bool, block: seq<string>, rest: seq<string>)
    requires lines != [] && IsFooter(lines[|lines| - 1]) && !IsHeader(lines[|lines| - 1])
    ensures Blocks(lines + rest, inBlock, block) == Blocks(lines, inBlock, block) + Blocks(rest, false, [])
    decreases |lines|
  {
    hide IsHeader, IsFooter;
    assert (lines + rest)[1..] == lines[1..] + rest;
    if |lines| == 1 {
      assert lines[1..] == [];
      BlockIrrelevantOutside(rest, block);
    } else if !inBlock {
      BlocksBehindFooter(lines[1..], IsHeader(lines[0]), if IsHeader(lines[0]) then [] else block, rest);
    } else if IsFooter(lines[0]) {
      BlocksBehindFooter(lines[1..], false, block, rest);
    } else {
      BlocksBehindFooter(lines[1..], true, block + [lines[0]], rest);
    }
  }

  lemma {:induction false} NoHeaderNoBlocks(lines: seq<string>, block: seq<string>)
    requires !HasHeader(lines)
    ensures Blocks(lines, false, block) == []
  {
    hide IsHeader;
    if lines != [] {
      assert lines == [lines[0]] + lines[1..];
      HeaderBehind(lines[0], lines[1..]);
      NoHeaderNoBlocks(lines[1..], block);
    }
  }

  lemma HeaderBehind(line: string, rest: seq<string>)
    ensures HasHeader([line] + rest) <==> IsHeader(line) || HasHeader(rest)
  {
    hide IsHeader;
    HasHeaderAppend([line], rest);
    assert IsHeader(line) ==> IsHeader([line][0]);
  }

  lemma NoLinesNoHeader()
    ensures !HasHeader([])
  {
  }

  lemma HasHeaderAppend(a: seq<string>, b: seq<string>)
    ensures HasHeader(a + b) <==> HasHeader(a) || HasHeader(b)
  {
    hide IsHeader;
    if HasHeader(a) {
      var i :| 0 <= i < |a| && IsHeader(a[i]);
      assert IsHeader((a + b)[i]);
    }
    if HasHeader(b) {
      var i :| 0 <= i < |b| && IsHeader(b[i]);
      assert IsHeader((a + b)[|a| + i]);
    }
  }

  /**
   * Hence a log invoke.sh writes, whatever its progress lines and its closing line, yields a block
   * exactly when the response itself contains a header line.
   */
  lemma InvokeLogYieldsNothing(before: seq<string>, k: nat, left: nat, right: nat, foot: nat, response: seq<string>,
                               after: seq<string>)
    requires left >= 2 && right >= 1 && foot >= 2 && !HasHeader(before) && !HasHeader(after)
    ensures Blocks(before + ["", InvokeHeader(k, left, right)] + response + [Rule(foot)] + after, false, []) != []
            <==> HasHeader(response)
  {
    InvokeHeaderNotRecognised(k, left, right);
    DocumentedFooter(foot);
    BlankLine();
    hide IsHeader, IsFooter, Blocks, InvokeHeader, Rule;
    UnrecognisedFrame(before, InvokeHeader(k, left, right), response, Rule(foot));
    var lines := before + ["", InvokeHeader(k, left, right)] + response + [Rule(foot)];
    BlocksBehindFooter(lines, false, [], after);
    NoHeaderNoBlocks(after, []);
  }

  lemma UnrecognisedFrame(before: seq<string>, header: string, response: seq<string>, footer: string)
    requires !HasHeader(before) && !IsHeader("") && !IsHeader(header) && IsFooter(footer) && !IsHeader(footer)
    ensures Blocks(before + ["", header] + response + [footer], false, []) != [] <==> HasHeader(response)
  {
    hide IsHeader, IsFooter, Blocks;
    assert !HasHeader(["", header]) && !HasHeader([footer]);
    hide HasHeader;
    var lines := before + ["", header] + response + [footer];
    HasHeaderAppend(before, ["", header]);
    HasHeaderAppend(before + ["", header], response);
    HasHeaderAppend(before + ["", header] + response, [footer]);
    ClosedWhenOpened(lines, false, []);
  }

  lemma BlankLine()
    ensures !IsHeader("")
  {
  }
}
