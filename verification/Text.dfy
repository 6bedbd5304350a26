/** The string operations the shell and Python code lean on: join, split and substring search. */
module Text {

  function Join(words: seq<string>, sep: char): string {
    if words == [] then ""
    else if |words| == 1 then words[0]
    else words[0] + [sep] + Join(words[1..], sep)
  }

  /** Fields between separators, as str.split(sep) and IFS splitting produce them. */
  function Split(s: string, sep: char): (fields: seq<string>)
    ensures |fields| >= 1
  {
    if s == "" then [""]
    else if s[0] == sep then [""] + Split(s[1..], sep)
    else var rest := Split(s[1..], sep); [[s[0]] + rest[0]] + rest[1..]
  }

  /** One separator-free field in front of a separator is split off whole. */
  lemma {:induction false} SplitFirst(w: string, sep: char, rest: string)
    requires sep !in w
    ensures Split(w + [sep] + rest, sep) == [w] + Split(rest, sep)
  {
    var s := w + [sep] + rest;
    if w == "" {
      assert s[1..] == rest;
    } else {
      SplitFirst(w[1..], sep, rest);
      assert s[1..] == w[1..] + [sep] + rest;
      assert [s[0]] + w[1..] == w;
    }
  }

  lemma {:induction false} SplitWhole(w: string, sep: char)
    requires sep !in w
    ensures Split(w, sep) == [w]
  {
    if w != "" {
      SplitWhole(w[1..], sep);
      assert [w[0]] + w[1..] == w;
    }
  }

  /** Splitting undoes joining whenever no field contains the separator. */
  lemma {:induction false} SplitJoin(words: seq<string>, sep: char)
    requires words != []
    requires forall i :: 0 <= i < |words| ==> sep !in words[i]
    ensures Split(Join(words, sep), sep) == words
  {
    if |words| == 1 {
      SplitWhole(words[0], sep);
    } else {
      SplitJoin(words[1..], sep);
      SplitFirst(words[0], sep, Join(words[1..], sep));
      assert [words[0]] + words[1..] == words;
    }
  }

  ghost predicate OccursAt(hay: string, needle: string, p: nat) {
    p + |needle| <= |hay| && hay[p..p + |needle|] == needle
  }

  /** The shell's [[ hay == *needle* ]]. */
  ghost predicate Contains(hay: string, needle: string) {
    exists p: nat :: OccursAt(hay, needle, p)
  }

  /** The executable form of Contains. */
  predicate Search(hay: string, needle: string)
    ensures Search(hay, needle) == Contains(hay, needle)
  {
    if |hay| < |needle| then false
    else if hay[..|needle|] == needle then
      assert OccursAt(hay, needle, 0);
      true
    else
      assert forall p: nat :: OccursAt(hay, needle, p) ==> p > 0 && OccursAt(hay[1..], needle, p - 1);
      assert forall p: nat :: OccursAt(hay[1..], needle, p) ==> OccursAt(hay, needle, p + 1);
      hay != "" && Search(hay[1..], needle)
  }

  /** " ${words[*]} ": the words joined by blanks, with a blank at both ends. */
  function Padded(words: seq<string>): string {
    " " + Join(words, ' ') + " "
  }

  lemma SliceBehind(front: string, rest: string, q: nat, len: nat)
    requires q + len <= |rest|
    ensures (front + rest)[|front| + q..|front| + q + len] == rest[q..q + len]
  {
  }

  lemma OccursCharwise(hay: string, needle: string, p: nat)
    requires OccursAt(hay, needle, p)
    ensures forall i :: p <= i < p + |needle| ==> hay[i] == needle[i - p]
  {
    forall i | p <= i < p + |needle| ensures hay[i] == needle[i - p] {
      assert hay[p..p + |needle|][i - p] == hay[i];
    }
  }

  /** A blank-padded word at the very front is the first word. */
  lemma OccursInFront(w: string, rest: string, x: string)
    requires ' ' !in w && ' ' !in x && rest != "" && rest[0] == ' '
    requires OccursAt(" " + w + rest, " " + x + " ", 0)
    ensures w == x
  {
    var hay, needle := " " + w + rest, " " + x + " ";
    OccursCharwise(hay, needle, 0);
    assert hay[|w| + 1] == ' ' && needle[|x| + 1] == ' ';
    assert forall i :: 0 <= i < |w| ==> hay[i + 1] == w[i];
    assert forall i :: 0 <= i < |x| ==> needle[i + 1] == x[i];
    assert hay[|x| + 1] == ' ' && |w| <= |x|;
    assert needle[|w| + 1] == ' ' && |x| <= |w|;
    forall i | 0 <= i < |w| ensures w[i] == x[i] {
      assert hay[i + 1] == needle[i + 1];
    }
  }

  /** Where a blank-padded word occurs behind a first word it occurs inside what follows that word. */
  lemma OccursBehind(w: string, rest: string, x: string, p: nat)
    requires ' ' !in w && ' ' !in x && rest != "" && rest[0] == ' ' && p > 0
    requires OccursAt(" " + w + rest, " " + x + " ", p)
    ensures p >= |w| + 1 && OccursAt(rest, " " + x + " ", p - |w| - 1)
  {
    var hay, needle := " " + w + rest, " " + x + " ";
    OccursCharwise(hay, needle, p);
    assert hay[p] == ' ';
    assert forall i :: 0 < i <= |w| ==> hay[i] == w[i - 1];
    assert p > |w|;
    SliceBehind(" " + w, rest, p - |w| - 1, |needle|);
  }

  lemma TooShort(hay: string, needle: string)
    requires |hay| < |needle|
    ensures !Contains(hay, needle)
  {
  }

  /**
   * The membership idiom [[ " ${words[*]} " == *" $x "* ]]: when neither the words nor x
   * contain a blank, it holds exactly for members.
   */
  lemma {:induction false} PaddedSearchIsMembership(words: seq<string>, x: string)
    requires x != "" && ' ' !in x && forall i :: 0 <= i < |words| ==> ' ' !in words[i]
    ensures Contains(Padded(words), " " + x + " ") <==> x in words
  {
    hide Contains;
    var needle := " " + x + " ";
    if words == [] {
      TooShort(Padded(words), needle);
    } else {
      var rest := if |words| == 1 then " " else Padded(words[1..]);
      assert Padded(words) == " " + words[0] + rest;
      PaddedStep(words[0], rest, x);
      PaddedSearchIsMembership(words[1..], x);
      if |words| == 1 {
        TooShort(rest, needle);
      }
    }
  }

  /** A padded word is found behind a first word, or is that word. */
  lemma PaddedStep(w: string, rest: string, x: string)
    requires ' ' !in w && ' ' !in x && rest != "" && rest[0] == ' '
    ensures Contains(" " + w + rest, " " + x + " ") <==> w == x || Contains(rest, " " + x + " ")
  {
    var hay, needle := " " + w + rest, " " + x + " ";
    if Contains(hay, needle) {
      var p: nat :| OccursAt(hay, needle, p);
      if p == 0 {
        OccursInFront(w, rest, x);
      } else {
        OccursBehind(w, rest, x, p);
      }
    }
    if w == x {
      assert OccursAt(hay, needle, 0);
    } else if Contains(rest, needle) {
      var q: nat :| OccursAt(rest, needle, q);
      var p := q + |w| + 1;
      SliceBehind(" " + w, rest, q, |needle|);
      assert OccursAt(hay, needle, p);
    }
  }
}
