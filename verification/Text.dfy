/** Lines, trimming, splitting and joining, as the line-based parsers use them. */
module Text {
  import opened Wrappers

  /** Unicode white space. */
  predicate IsSpace(c: char) {
    var n := c as int;
    || 0x09 <= n <= 0x0D || n == 0x20 || n == 0x85 || n == 0xA0 || n == 0x1680
    || 0x2000 <= n <= 0x200A || n == 0x2028 || n == 0x2029 || n == 0x202F || n == 0x205F || n == 0x3000
  }

  /** No white space at either end. */
  predicate Trimmed(s: string) {
    s != "" ==> !IsSpace(s[0]) && !IsSpace(s[|s| - 1])
  }

  function TrimStart(s: string): (r: string)
    ensures r != "" ==> !IsSpace(r[0])
    ensures |r| <= |s|
  {
    if s != "" && IsSpace(s[0]) then TrimStart(s[1..]) else s
  }

  function TrimEnd(s: string): (r: string)
    ensures r != "" ==> !IsSpace(r[|r| - 1]) && s != "" && r[0] == s[0]
    ensures |r| <= |s|
  {
    if s != "" && IsSpace(s[|s| - 1]) then TrimEnd(s[..|s| - 1]) else s
  }

  function Trim(s: string): (r: string)
    ensures Trimmed(r)
    ensures Trimmed(s) ==> r == s
  {
    TrimEnd(TrimStart(s))
  }

  lemma {:induction false} TrimStartWithin(s: string, c: char)
    requires c in TrimStart(s)
    ensures c in s
    decreases |s|
  {
    if s != "" && IsSpace(s[0]) {
      TrimStartWithin(s[1..], c);
    }
  }

  lemma {:induction false} TrimEndWithin(s: string, c: char)
    requires c in TrimEnd(s)
    ensures c in s
    decreases |s|
  {
    if s != "" && IsSpace(s[|s| - 1]) {
      TrimEndWithin(s[..|s| - 1], c);
    }
  }

  lemma TrimWithin(s: string, c: char)
    requires c !in s
    ensures c !in Trim(s)
  {
    if c in Trim(s) {
      TrimEndWithin(TrimStart(s), c);
      TrimStartWithin(s, c);
    }
  }

  lemma {:induction false} TrimStartKeeps(s: string, i: nat)
    requires i < |s| && !IsSpace(s[i])
    ensures TrimStart(s) != ""
    decreases |s|
  {
    if IsSpace(s[0]) {
      TrimStartKeeps(s[1..], i - 1);
    }
  }

  lemma {:induction false} TrimEndKeeps(s: string, i: nat)
    requires i < |s| && !IsSpace(s[i])
    ensures TrimEnd(s) != ""
    decreases |s|
  {
    if IsSpace(s[|s| - 1]) {
      TrimEndKeeps(s[..|s| - 1], i);
    }
  }

  /** Something that is not white space survives trimming. */
  lemma TrimKeeps(s: string, i: nat)
    requires i < |s| && !IsSpace(s[i])
    ensures Trim(s) != ""
  {
    TrimStartKeeps(s, i);
    TrimEndKeeps(TrimStart(s), 0);
  }

  function StripPrefix(s: string, prefix: string): Option<string> {
    if prefix <= s then Some(s[|prefix|..]) else None
  }

  /** The first position at or after from that holds c. */
  function Find(s: string, c: char, from: nat): (r: Option<nat>)
    ensures r.Some? ==> from <= r.value < |s| && s[r.value] == c
                        && forall i | from <= i < r.value :: s[i] != c
    ensures r.None? ==> forall i | from <= i < |s| :: s[i] != c
    decreases |s| - from
  {
    if from >= |s| then None else if s[from] == c then Some(from) else Find(s, c, from + 1)
  }

  lemma {:induction false} FindIs(s: string, c: char, from: nat, at: nat)
    requires from <= at < |s| && s[at] == c
    requires forall i | from <= i < at :: s[i] != c
    ensures Find(s, c, from) == Some(at)
    decreases at - from
  {
    if from >= at {
    } else {
      FindIs(s, c, from + 1, at);
    }
  }

  lemma {:induction false} FindShift(s: string, c: char, k: nat, from: nat)
    requires k <= |s|
    ensures var r := Find(s, c, k + from);
            Find(s[k..], c, from) == if r.Some? then Some(r.value - k) else None
    decreases |s| - from
  {
    if k + from < |s| {
      assert s[k..][from] == s[k + from];
      if s[k + from] != c {
        FindShift(s, c, k, from + 1);
      }
    }
  }

  // ----- lines -----

  function WithoutCr(s: string): string {
    if s != "" && s[|s| - 1] == '\r' then s[..|s| - 1] else s
  }

  /** The lines of s; a line feed ends a line, with the carriage return before it if there is one. */
  function Lines(s: string): (ls: seq<string>)
    ensures forall l | l in ls :: '\n' !in l
  {
    if s == "" then []
    else
      var end := Find(s, '\n', 0);
      if end.None? then [s]
      else [WithoutCr(s[..end.value])] + Lines(s[end.value + 1..])
  }

  lemma FirstLine(line: string, rest: string)
    requires '\n' !in line
    ensures Lines(line + "\n" + rest) == [WithoutCr(line)] + Lines(rest)
  {
    var s := line + "\n" + rest;
    assert s[|line|] == '\n';
    forall i | 0 <= i < |line| ensures s[i] != '\n' {
      assert s[i] == line[i] && line[i] in line;
    }
    assert Find(s, '\n', 0) == Some(|line|);
    assert s[..|line|] == line && s[|line| + 1..] == rest;
  }

  /** Lines joined with a line feed after each. */
  function Unlines(ls: seq<string>): string {
    if ls == [] then "" else ls[0] + "\n" + Unlines(ls[1..])
  }

  lemma {:induction false} UnlinesConcat(a: seq<string>, b: seq<string>)
    ensures Unlines(a + b) == Unlines(a) + Unlines(b)
    decreases |a|
  {
    if a == [] {
      assert a + b == b;
    } else {
      assert (a + b)[1..] == a[1..] + b;
      UnlinesConcat(a[1..], b);
      assert a[0] + "\n" + (Unlines(a[1..]) + Unlines(b)) == (a[0] + "\n" + Unlines(a[1..])) + Unlines(b);
    }
  }

  /** Lines without line feeds that do not end in a carriage return come back as they were. */
  lemma {:induction false} LinesUnlines(ls: seq<string>)
    requires forall l | l in ls :: '\n' !in l && WithoutCr(l) == l
    ensures Lines(Unlines(ls)) == ls
    decreases |ls|
  {
    if ls == [] {
    } else {
      FirstLine(ls[0], Unlines(ls[1..]));
      assert ls[0] in ls;
      assert forall l | l in ls[1..] :: l in ls;
      LinesUnlines(ls[1..]);
    }
  }

  // ----- splitting on white space -----

  /** Not empty and free of white space. */
  predicate Word(s: string) {
    s != "" && forall i | 0 <= i < |s| :: !IsSpace(s[i])
  }

  /** The length of the leading run of characters that are not white space. */
  function WordEnd(s: string, from: nat): (r: nat)
    requires from <= |s|
    ensures from <= r <= |s|
    ensures forall i | from <= i < r :: !IsSpace(s[i])
    ensures r < |s| ==> IsSpace(s[r])
    decreases |s| - from
  {
    if from < |s| && !IsSpace(s[from]) then WordEnd(s, from + 1) else from
  }

  function SplitWhitespace(s: string): (ws: seq<string>)
    ensures forall w | w in ws :: Word(w)
    decreases |s|
  {
    if s == "" then []
    else if IsSpace(s[0]) then SplitWhitespace(s[1..])
    else
      var end := WordEnd(s, 0);
      [s[..end]] + SplitWhitespace(s[end..])
  }

  function Join(items: seq<string>, separator: string): string {
    if items == [] then ""
    else if |items| == 1 then items[0]
    else items[0] + separator + Join(items[1..], separator)
  }

  lemma {:induction false} WordEndIs(s: string, from: nat, end: nat)
    requires from <= end <= |s|
    requires forall i | from <= i < end :: !IsSpace(s[i])
    requires end < |s| ==> IsSpace(s[end])
    ensures WordEnd(s, from) == end
    decreases end - from
  {
    if from >= end {
    } else {
      WordEndIs(s, from + 1, end);
    }
  }

  lemma {:induction false} SplitJoin(words: seq<string>)
    requires forall w | w in words :: Word(w)
    ensures SplitWhitespace(Join(words, " ")) == words
    decreases |words|
  {
    if words == [] {
    } else {
      var s, w := Join(words, " "), words[0];
      assert w in words && Word(w);
      assert !IsSpace(s[0]);
      if |words| == 1 {
        WordEndIs(s, 0, |w|);
        assert s[..|w|] == w && s[|w|..] == "";
      } else {
        var rest := Join(words[1..], " ");
        assert s == w + " " + rest;
        forall i | 0 <= i < |w| ensures !IsSpace(s[i]) {
          assert s[i] == w[i];
        }
        assert s[|w|] == ' ';
        WordEndIs(s, 0, |w|);
        assert s[..|w|] == w && s[|w|..] == " " + rest;
        assert (" " + rest)[1..] == rest;
        assert forall v | v in words[1..] :: v in words;
        SplitJoin(words[1..]);
      }
    }
  }

  /** A join of words starts and ends with a character of a word. */
  lemma {:induction false} JoinTrimmed(words: seq<string>)
    requires words != [] && forall w | w in words :: Word(w)
    ensures Join(words, " ") != "" && Trimmed(Join(words, " ")) && '\n' !in Join(words, " ")
    decreases |words|
  {
    var w := words[0];
    assert w in words && Word(w);
    assert forall i | 0 <= i < |w| :: w[i] != '\n';
    if |words| > 1 {
      assert forall v | v in words[1..] :: v in words;
      JoinTrimmed(words[1..]);
      var s := Join(words, " ");
      assert s[0] == w[0];
      assert s[|s| - 1] == Join(words[1..], " ")[|Join(words[1..], " ")| - 1];
    }
  }

  // ----- splitting on one character -----

  function SplitOn(s: string, c: char): (parts: seq<string>)
    ensures parts != []
    decreases |s|
  {
    var at := Find(s, c, 0);
    if at.None? then [s] else [s[..at.value]] + SplitOn(s[at.value + 1..], c)
  }

  function TrimAll(items: seq<string>): seq<string> {
    seq(|items|, i requires 0 <= i < |items| => Trim(items[i]))
  }

  /** A trimmed item with one blank before it is still that item after trimming. */
  lemma TrimPadded(s: string)
    requires Trimmed(s)
    ensures Trim(" " + s) == s
  {
    assert (" " + s)[1..] == s;
    assert TrimStart(" " + s) == TrimStart(s) == s;
  }

  lemma SplitFirst(first: string, c: char, rest: string)
    requires c !in first
    ensures SplitOn(first + [c] + rest, c) == [first] + SplitOn(rest, c)
  {
    var s := first + [c] + rest;
    assert s[|first|] == c;
    forall i | 0 <= i < |first| ensures s[i] != c {
      assert s[i] == first[i] && first[i] in first;
    }
    assert Find(s, c, 0) == Some(|first|);
    assert s[..|first|] == first && s[|first| + 1..] == rest;
  }

  lemma SplitNone(s: string, c: char)
    requires c !in s
    ensures SplitOn(s, c) == [s]
  {
    assert forall i | 0 <= i < |s| :: s[i] in s;
  }

  lemma TrimLed(lead: string, s: string)
    requires Trimmed(s) && (lead == "" || lead == " ")
    ensures Trim(lead + s) == s
  {
    if lead == " " {
      TrimPadded(s);
    } else {
      assert lead + s == s;
    }
  }

  lemma TrimAllCons(first: string, rest: seq<string>)
    ensures TrimAll([first] + rest) == [Trim(first)] + TrimAll(rest)
  {
  }

  lemma JoinLed(lead: string, items: seq<string>)
    requires |items| > 1
    ensures lead + Join(items, ", ") == (lead + items[0]) + "," + (" " + Join(items[1..], ", "))
  {
    var rest := Join(items[1..], ", ");
    assert Join(items, ", ") == items[0] + ", " + rest;
    assert items[0] + ", " + rest == items[0] + "," + (" " + rest);
    assert lead + (items[0] + "," + (" " + rest)) == (lead + items[0]) + "," + (" " + rest);
  }

  lemma TrimAllOne(s: string)
    ensures TrimAll([s]) == [Trim(s)]
  {
  }

  /** Splitting at commas and trimming undoes joining with ", ". */
  lemma {:induction false} SplitJoinList(items: seq<string>, lead: string)
    requires items != []
    requires forall s | s in items :: Trimmed(s) && ',' !in s
    requires lead == "" || lead == " "
    ensures TrimAll(SplitOn(lead + Join(items, ", "), ',')) == items
    decreases |items|
  {
    assert items[0] in items;
    var first := lead + items[0];
    TrimLed(lead, items[0]);
    assert ',' !in first;
    if |items| == 1 {
      SplitNone(first, ',');
      assert lead + Join(items, ", ") == first;
      TrimAllOne(first);
      assert items == [items[0]];
    } else {
      var rest := " " + Join(items[1..], ", ");
      JoinLed(lead, items);
      SplitFirst(first, ',', rest);
      assert forall v | v in items[1..] :: v in items;
      SplitJoinList(items[1..], " ");
      TrimAllCons(first, SplitOn(rest, ','));
      assert items == [items[0]] + items[1..];
    }
  }

  /** The parts lie within s and hold no separator. */
  lemma {:induction false} SplitParts(s: string, c: char, part: string)
    requires part in SplitOn(s, c)
    ensures c !in part && forall x | x in part :: x in s
    decreases |s|
  {
    var at := Find(s, c, 0);
    if at.Some? {
      var head, tail := s[..at.value], s[at.value + 1..];
      if part in SplitOn(tail, c) {
        SplitParts(tail, c, part);
      } else {
        assert part == head;
      }
    }
  }

  /** A blank behind a separator changes no part once the parts are trimmed. */
  lemma {:induction false} SplitTrailingBlank(s: string)
    requires s == "" || s[|s| - 1] == ','
    ensures TrimAll(SplitOn(s + " ", ',')) == TrimAll(SplitOn(s, ','))
    decreases |s|
  {
    var at := Find(s, ',', 0);
    if at.None? {
      assert s == "";
      SplitNone(" ", ',');
      SplitNone("", ',');
      TrimAllOne(" ");
      TrimAllOne("");
      TrimPadded("");
      assert s + " " == " " == " " + "";
    } else {
      var head, tail := s[..at.value], s[at.value + 1..];
      assert s == head + "," + tail;
      assert s + " " == head + "," + (tail + " ");
      assert ',' !in head;
      SplitFirst(head, ',', tail);
      SplitFirst(head, ',', tail + " ");
      assert tail != "" ==> tail[|tail| - 1] == s[|s| - 1];
      SplitTrailingBlank(tail);
      TrimAllCons(head, SplitOn(tail, ','));
      TrimAllCons(head, SplitOn(tail + " ", ','));
    }
  }

  // ----- the same, character by character -----

  /** The code points of Unicode white space, in decimal. */
  lemma SpaceCodes(c: char)
    ensures IsSpace(c) <==>
            || c as int in {9, 10, 11, 12, 13, 32, 133, 160, 5760, 8232, 8233, 8239, 8287, 12288}
            || 8192 <= c as int <= 8202
  {
  }

  ghost predicate AllSpace(s: string) {
    forall i | 0 <= i < |s| :: IsSpace(s[i])
  }

  lemma {:induction false} TrimStartSplits(s: string) returns (lead: string)
    ensures s == lead + TrimStart(s) && AllSpace(lead)
    decreases |s|
  {
    if s != "" && IsSpace(s[0]) {
      var rest := TrimStartSplits(s[1..]);
      lead := s[..1] + rest;
      assert s == s[..1] + s[1..];
    } else {
      lead := "";
    }
  }

  lemma {:induction false} TrimEndSplits(s: string) returns (trail: string)
    ensures s == TrimEnd(s) + trail && AllSpace(trail)
    decreases |s|
  {
    if s != "" && IsSpace(s[|s| - 1]) {
      var rest := TrimEndSplits(s[..|s| - 1]);
      trail := rest + s[|s| - 1..];
      assert s == s[..|s| - 1] + s[|s| - 1..];
    } else {
      trail := "";
    }
  }

  /** Trimming takes white space off both ends, all of it and nothing else. */
  lemma TrimSplits(s: string) returns (lead: string, trail: string)
    ensures s == lead + Trim(s) + trail && AllSpace(lead) && AllSpace(trail)
    ensures Trimmed(Trim(s))
  {
    lead := TrimStartSplits(s);
    trail := TrimEndSplits(TrimStart(s));
    assert lead + (Trim(s) + trail) == lead + Trim(s) + trail;
  }

  /** The last line may lack its line feed; a line feed at the very end begins no further line. */
  lemma LastLines(line: string)
    requires '\n' !in line
    ensures Lines(line) == if line == "" then [] else [line]
    ensures Lines(line + "\n") == [if line != "" && line[|line| - 1] == '\r'
                                   then line[..|line| - 1] else line]
  {
    assert forall i | 0 <= i < |line| :: line[i] in line;
    FirstLine(line, "");
    assert line + "\n" + "" == line + "\n";
  }

  /** Words are separated by any amount of white space. */
  lemma WordsSeparated(space: char, word: string, rest: string)
    requires IsSpace(space) && Word(word) && (rest == "" || IsSpace(rest[0]))
    ensures SplitWhitespace([space] + rest) == SplitWhitespace(rest)
    ensures SplitWhitespace(word + rest) == [word] + SplitWhitespace(rest)
    ensures SplitWhitespace("") == []
  {
    assert ([space] + rest)[1..] == rest;
    var s := word + rest;
    assert s[0] == word[0];
    WordEndIs(s, 0, |word|);
    assert s[..|word|] == word && s[|word|..] == rest;
  }

  /** Splitting cuts at each separator, and every part is trimmed. */
  lemma PartsTrimmed(first: string, c: char, rest: string)
    requires c !in first
    ensures TrimAll(SplitOn(first, c)) == [Trim(first)]
    ensures TrimAll(SplitOn(first + [c] + rest, c)) == [Trim(first)] + TrimAll(SplitOn(rest, c))
  {
    SplitNone(first, c);
    SplitFirst(first, c, rest);
    TrimAllOne(first);
    TrimAllCons(first, SplitOn(rest, c));
  }

  /** Joined are the items with the separator between any two of them. */
  lemma JoinForms(a: string, b: string, rest: seq<string>, separator: string)
    ensures Join([], separator) == "" && Join([a], separator) == a
    ensures Join([a] + ([b] + rest), separator) == a + separator + Join([b] + rest, separator)
  {
    assert ([a] + ([b] + rest))[1..] == [b] + rest;
  }
}
