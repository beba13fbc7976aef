/**
 Strings the way the standard library of the source handles them: `getline`, `operator>>`, `find`,
 trimming. A byte is the character with the same code; what is proved holds for every character.
 */
module Text {

  /** `isspace` in the C locale. */
  predicate IsSpace(c: char) {
    c == ' ' || 9 <= c as int <= 13
  }

  predicate IsDigit(c: char) {
    '0' <= c <= '9'
  }

  predicate AllSpace(s: string) {
    forall i :: 0 <= i < |s| ==> IsSpace(s[i])
  }

  predicate NoSpace(s: string) {
    forall i :: 0 <= i < |s| ==> !IsSpace(s[i])
  }

  predicate EmptyOrSpaced(s: string) {
    s == "" || IsSpace(s[0])
  }

  /** `rfind(prefix, 0) == 0`. */
  predicate StartsWith(s: string, prefix: string) {
    prefix <= s
  }

  /** The position of the first `c`, or the length when there is none. */
  function Find(s: string, c: char): (i: nat)
    ensures i <= |s| && c !in s[..i]
    ensures i < |s| ==> s[i] == c
  {
    if s == "" || s[0] == c then 0 else 1 + Find(s[1..], c)
  }

  lemma {:induction false} FindConcat(a: string, b: string, c: char)
    requires c !in a
    ensures Find(a + b, c) == |a| + Find(b, c)
  {
    if a == "" {
      assert a + b == b;
    } else {
      assert a[0] in a;
      assert (a + b)[1..] == a[1..] + b;
      FindConcat(a[1..], b, c);
    }
  }

  /** What a callee sees of a string passed as `c_str()`: everything before the first NUL. */
  function CString(s: string): (seen: string)
    ensures '\0' !in seen && (seen == s || seen + "\0" <= s)
  {
    s[..Find(s, '\0')]
  }

  lemma CStringWithoutNul(s: string)
    requires '\0' !in s
    ensures CString(s) == s
  {
    FindConcat(s, "", '\0');
    assert s + "" == s;
  }

  // Occurrence

  ghost predicate OccursIn(part: string, whole: string) {
    exists i, j :: 0 <= i <= j <= |whole| && whole[i..j] == part
  }

  lemma SliceOccurs(s: string, i: nat, j: nat)
    requires i <= j <= |s|
    ensures OccursIn(s[i..j], s)
  {
  }

  lemma OccursTransitive(a: string, b: string, c: string)
    requires OccursIn(a, b) && OccursIn(b, c)
    ensures OccursIn(a, c)
  {
    var i, j :| 0 <= i <= j <= |b| && b[i..j] == a;
    var k, l :| 0 <= k <= l <= |c| && c[k..l] == b;
    assert c[k..l] == b && k + j <= l;
    assert c[k + i..k + j] == a by {
      forall m | 0 <= m < |a| ensures c[k + i..k + j][m] == a[m] {
        assert a[m] == b[i + m] == c[k + i + m];
      }
    }
  }

  lemma OccursCharacters(a: string, b: string, c: char)
    requires OccursIn(a, b) && c in a
    ensures c in b
  {
    var i, j :| 0 <= i <= j <= |b| && b[i..j] == a;
    var k :| 0 <= k < |a| && a[k] == c;
    assert b[i + k] == c;
  }

  // Trimming

  /** The set that `find_first_not_of(" \t\r\n")` skips; smaller than `isspace`. */
  predicate IsTrimmed(c: char) {
    c == ' ' || c == '\t' || c == '\r' || c == '\n'
  }

  function TrimLeft(s: string): string {
    if s == "" || !IsTrimmed(s[0]) then s else TrimLeft(s[1..])
  }

  function TrimRight(s: string): string {
    if s == "" || !IsTrimmed(s[|s| - 1]) then s else TrimRight(s[..|s| - 1])
  }

  function Trim(s: string): string {
    TrimRight(TrimLeft(s))
  }

  lemma {:induction false} TrimLeftParts(s: string) returns (before: string)
    ensures s == before + TrimLeft(s)
    ensures forall i :: 0 <= i < |before| ==> IsTrimmed(before[i])
    ensures TrimLeft(s) != "" ==> !IsTrimmed(TrimLeft(s)[0])
  {
    if s == "" || !IsTrimmed(s[0]) {
      before := "";
    } else {
      var rest := TrimLeftParts(s[1..]);
      before := [s[0]] + rest;
    }
  }

  lemma {:induction false} TrimRightParts(s: string) returns (after: string)
    ensures s == TrimRight(s) + after
    ensures forall i :: 0 <= i < |after| ==> IsTrimmed(after[i])
    ensures TrimRight(s) != "" ==> !IsTrimmed(TrimRight(s)[|TrimRight(s)| - 1])
    ensures TrimRight(s) <= s
  {
    if s == "" || !IsTrimmed(s[|s| - 1]) {
      after := "";
    } else {
      var rest := TrimRightParts(s[..|s| - 1]);
      after := rest + [s[|s| - 1]];
    }
  }

  lemma TrimParts(s: string) returns (before: string, after: string)
    ensures s == before + Trim(s) + after
    ensures forall i :: 0 <= i < |before| ==> IsTrimmed(before[i])
    ensures forall i :: 0 <= i < |after| ==> IsTrimmed(after[i])
    ensures Trim(s) != "" ==> !IsTrimmed(Trim(s)[0]) && !IsTrimmed(Trim(s)[|Trim(s)| - 1])
  {
    before := TrimLeftParts(s);
    after := TrimRightParts(TrimLeft(s));
  }

  /** The text is the part from the first to the last character that is neither space, tab, carriage
      return nor line feed. */
  lemma TrimMeaning(s: string) returns (before: string, after: string)
    ensures s == before + Trim(s) + after
    ensures forall c :: c in before + after ==> c in " \t\r\n"
    ensures Trim(s) != "" ==> Trim(s)[0] !in " \t\r\n" && Trim(s)[|Trim(s)| - 1] !in " \t\r\n"
  {
    before, after := TrimParts(s);
  }

  lemma TrimKeeps(s: string, c: char)
    requires c in s && !IsTrimmed(c)
    ensures c in Trim(s)
  {
    var before, after := TrimParts(s);
  }

  lemma {:induction false} TrimLeftCarriageReturn(s: string)
    ensures TrimLeft(s + "\r") == if TrimLeft(s) == "" then "" else TrimLeft(s) + "\r"
  {
    if s == "" {
      assert (s + "\r")[1..] == "";
    } else {
      assert (s + "\r")[0] == s[0];
      assert (s + "\r")[1..] == s[1..] + "\r";
      if IsTrimmed(s[0]) {
        TrimLeftCarriageReturn(s[1..]);
      }
    }
  }

  /** A carriage return at the end of a line is trimmed away. */
  lemma TrimCarriageReturn(s: string)
    ensures Trim(s + "\r") == Trim(s)
  {
    TrimLeftCarriageReturn(s);
    var t := TrimLeft(s);
    assert (t + "\r")[..|t|] == t;
  }

  // Lines

  /** What repeated `getline` delivers: the final line need not be terminated, and an empty rest is
      no line. */
  function Lines(s: string): seq<string>
    decreases |s|
  {
    if s == "" then []
    else
      var i := Find(s, '\n');
      if i == |s| then [s] else [s[..i]] + Lines(s[i + 1..])
  }

  /** Every line with a line feed after it. */
  function Unlines(lines: seq<string>): string {
    if lines == [] then "" else lines[0] + "\n" + Unlines(lines[1..])
  }

  ghost predicate NoNewlines(lines: seq<string>) {
    forall i :: 0 <= i < |lines| ==> '\n' !in lines[i]
  }

  lemma {:induction false} LinesOfUnlines(lines: seq<string>)
    requires NoNewlines(lines)
    ensures Lines(Unlines(lines)) == lines
  {
    if lines != [] {
      var line, rest := lines[0], Unlines(lines[1..]);
      assert line + "\n" + rest == line + ("\n" + rest);
      FindConcat(line, "\n" + rest, '\n');
      assert (line + "\n" + rest)[..|line|] == line && (line + "\n" + rest)[|line| + 1..] == rest;
      LinesOfUnlines(lines[1..]);
    }
  }

  lemma SameFront(a: string, b: string)
    requires a + "\n" == b + "\n"
    ensures a == b
  {
    assert (a + "\n")[..|a|] == a && (b + "\n")[..|b|] == b;
  }

  lemma LinesStep(line: string, rest: string)
    requires '\n' !in line
    ensures Lines(line + ("\n" + rest)) == [line] + Lines(rest)
  {
    var s := line + ("\n" + rest);
    FindConcat(line, "\n" + rest, '\n');
    assert s[..|line|] == line && s[|line| + 1..] == rest;
  }

  lemma {:induction false} UnlinesEnds(lines: seq<string>)
    requires lines != []
    ensures Unlines(lines) != "" && Unlines(lines)[|Unlines(lines)| - 1] == '\n'
  {
    if |lines| > 1 {
      UnlinesEnds(lines[1..]);
    }
  }

  lemma LastLine(line: string)
    requires '\n' !in line && line != ""
    ensures Lines(line) == [line] && Unlines([line]) == line + "\n"
  {
    FindConcat(line, "", '\n');
    assert line + "" == line && line[..|line|] == line;
    assert [line][1..] == [];
  }

  lemma SplitLast(s: string, line: string, rest: string) returns (tail: string)
    requires rest != "" && rest[|rest| - 1] == '\n' && s + "\n" == line + "\n" + rest
    ensures rest == tail + "\n" && s == line + ("\n" + tail)
  {
    tail := rest[..|rest| - 1];
    assert line + "\n" + (tail + "\n") == line + ("\n" + tail) + "\n";
    SameFront(s, line + ("\n" + tail));
  }

  lemma {:induction false} LinesOfUnterminated(s: string, lines: seq<string>)
    requires NoNewlines(lines) && lines != [] && lines[|lines| - 1] != "" && s + "\n" == Unlines(lines)
    ensures Lines(s) == lines
    decreases |lines|
  {
    hide Lines;
    var line := lines[0];
    if |lines| == 1 {
      LastLine(line);
      assert lines == [line];
      SameFront(s, line);
    } else {
      UnlinesEnds(lines[1..]);
      var tail := SplitLast(s, line, Unlines(lines[1..]));
      LinesStep(line, tail);
      LinesOfUnterminated(tail, lines[1..]);
    }
  }

  /** How the text ends: with a line feed, or with a line that lacks one. */
  ghost predicate EndsLike(s: string, lines: seq<string>) {
    s == Unlines(lines) || (lines != [] && lines[|lines| - 1] != "" && s + "\n" == Unlines(lines))
  }

  lemma EndsLikeStep(line: string, s: string, lines: seq<string>)
    requires EndsLike(s, lines)
    ensures EndsLike(line + ("\n" + s), [line] + lines)
  {
    assert ([line] + lines)[1..] == lines;
    assert line + ("\n" + s) == line + "\n" + s && line + ("\n" + s) + "\n" == line + "\n" + (s + "\n");
  }

  lemma {:induction false} LinesRejoin(s: string)
    ensures NoNewlines(Lines(s)) && EndsLike(s, Lines(s))
    decreases |s|
  {
    if s != "" {
      var i := Find(s, '\n');
      if i == |s| {
        assert s[..i] == s && [s][1..] == [] && s + "\n" + "" == s + "\n";
      } else {
        var line, rest := s[..i], s[i + 1..];
        assert s == line + ("\n" + rest);
        LinesStep(line, rest);
        LinesRejoin(rest);
        EndsLikeStep(line, rest, Lines(rest));
      }
    }
  }

  /** The lines of a text are its parts between line feeds; after a last line feed there is no further one. */
  lemma LinesIff(s: string, lines: seq<string>)
    ensures Lines(s) == lines <==>
      NoNewlines(lines) && EndsLike(s, lines)
  {
    LinesRejoin(s);
    if NoNewlines(lines) {
      if s == Unlines(lines) {
        LinesOfUnlines(lines);
      } else if lines != [] && lines[|lines| - 1] != "" && s + "\n" == Unlines(lines) {
        LinesOfUnterminated(s, lines);
      }
    }
  }

  // Tokens

  /** The length of the leading run of non-space characters. */
  function WordLength(s: string): (n: nat)
    ensures n <= |s| && NoSpace(s[..n])
    ensures n < |s| ==> IsSpace(s[n])
  {
    if s == "" || IsSpace(s[0]) then 0 else 1 + WordLength(s[1..])
  }

  /** What repeated `operator>>` delivers. */
  function Tokens(s: string): seq<string>
    decreases |s|
  {
    if s == "" then []
    else if IsSpace(s[0]) then Tokens(s[1..])
    else [s[..WordLength(s)]] + Tokens(s[WordLength(s)..])
  }

  lemma {:induction false} TokensAfterSpace(space: string, rest: string)
    requires AllSpace(space)
    ensures Tokens(space + rest) == Tokens(rest)
  {
    if space == "" {
      assert space + rest == rest;
    } else {
      assert (space + rest)[0] == space[0];
      assert (space + rest)[1..] == space[1..] + rest;
      TokensAfterSpace(space[1..], rest);
    }
  }

  lemma {:induction false} WordLengthConcat(word: string, rest: string)
    requires NoSpace(word) && EmptyOrSpaced(rest)
    ensures WordLength(word + rest) == |word|
  {
    if word == "" {
      assert word + rest == rest;
    } else {
      assert (word + rest)[0] == word[0];
      assert (word + rest)[1..] == word[1..] + rest;
      WordLengthConcat(word[1..], rest);
    }
  }

  lemma TokensWord(word: string, rest: string)
    requires word != "" && NoSpace(word) && EmptyOrSpaced(rest)
    ensures Tokens(word + rest) == [word] + Tokens(rest)
  {
    WordLengthConcat(word, rest);
    assert (word + rest)[0] == word[0];
    assert (word + rest)[..|word|] == word && (word + rest)[|word|..] == rest;
  }

  lemma {:induction false} TokensBeforeSpace(s: string, space: string)
    requires AllSpace(space)
    ensures Tokens(s + space) == Tokens(s)
    decreases |s|
  {
    if s == "" {
      TokensAfterSpace(space, "");
      assert s + space == space + "";
    } else if IsSpace(s[0]) {
      assert (s + space)[1..] == s[1..] + space;
      TokensBeforeSpace(s[1..], space);
    } else {
      var n := WordLength(s);
      var word, rest := s[..n], s[n..];
      assert s[0] == word[0];
      assert s == word + rest && s + space == word + (rest + space);
      TokensWord(word, rest);
      TokensWord(word, rest + space);
      TokensBeforeSpace(rest, space);
    }
  }

  lemma TokensOfTrim(s: string)
    ensures Tokens(Trim(s)) == Tokens(s)
  {
    var before, after := TrimParts(s);
    TokensAfterSpace(before, Trim(s) + after);
    assert s == before + (Trim(s) + after);
    TokensBeforeSpace(Trim(s), after);
  }

  lemma {:induction false} TokenShape(s: string, k: nat)
    requires k < |Tokens(s)|
    ensures Tokens(s)[k] != "" && NoSpace(Tokens(s)[k]) && OccursIn(Tokens(s)[k], s)
    decreases |s|
  {
    if IsSpace(s[0]) {
      TokenShape(s[1..], k);
      assert s[1..] == s[1..|s|];
      SliceOccurs(s, 1, |s|);
      OccursTransitive(Tokens(s)[k], s[1..], s);
    } else {
      var n := WordLength(s);
      SliceOccurs(s, 0, n);
      if k > 0 {
        TokenShape(s[n..], k - 1);
        assert s[n..] == s[n..|s|];
        SliceOccurs(s, n, |s|);
        OccursTransitive(Tokens(s)[k], s[n..], s);
      }
    }
  }

  // What the tokens of a text are

  /** The six characters that the C standard calls white space. */
  ghost predicate IsGap(s: string) {
    forall c :: c in s ==> c in " \t\n\r" || c as int == 11 || c as int == 12
  }

  ghost predicate IsWord(s: string) {
    s != "" && forall c :: c in s ==> c !in " \t\n\r" && c as int != 11 && c as int != 12
  }

  lemma GapIsSpace(s: string)
    ensures IsGap(s) <==> AllSpace(s)
    ensures IsWord(s) <==> s != "" && NoSpace(s)
  {
    assert forall i :: 0 <= i < |s| ==> s[i] in s;
    assert forall c :: IsSpace(c) <==> c in " \t\n\r" || c as int == 11 || c as int == 12;
  }

  /** The words with a gap before each and after the last; only the outer two gaps may be empty. */
  ghost predicate AreWords(gaps: seq<string>, words: seq<string>) {
    && |gaps| == |words| + 1
    && (forall i :: 0 <= i < |gaps| ==> IsGap(gaps[i]))
    && (forall i :: 0 <= i < |words| ==> IsWord(words[i]))
    && (forall i :: 0 < i < |words| ==> gaps[i] != "")
  }

  ghost function Joined(gaps: seq<string>, words: seq<string>): string
    requires |gaps| == |words| + 1
  {
    if words == [] then gaps[0] else gaps[0] + words[0] + Joined(gaps[1..], words[1..])
  }

  lemma MoreSpace(c: char, gaps: seq<string>, words: seq<string>) returns (more: seq<string>)
    requires IsSpace(c) && AreWords(gaps, words)
    ensures AreWords(more, words) && Joined(more, words) == [c] + Joined(gaps, words)
  {
    more := [[c] + gaps[0]] + gaps[1..];
    GapIsSpace(gaps[0]);
    GapIsSpace(more[0]);
    assert forall i :: 0 < i < |gaps| ==> more[i] == gaps[i];
    assert more[1..] == gaps[1..];
    if words != [] {
      var rest := Joined(gaps[1..], words[1..]);
      assert [c] + gaps[0] + words[0] + rest == [c] + (gaps[0] + words[0] + rest);
    }
  }

  lemma MoreWord(word: string, gaps: seq<string>, words: seq<string>)
    requires IsWord(word) && AreWords(gaps, words) && (words != [] ==> gaps[0] != "")
    ensures AreWords([""] + gaps, [word] + words)
    ensures Joined([""] + gaps, [word] + words) == word + Joined(gaps, words)
  {
    assert ([""] + gaps)[1..] == gaps && ([word] + words)[1..] == words;
    assert "" + word == word;
  }

  lemma {:induction false} TokensRejoin(s: string) returns (gaps: seq<string>)
    ensures AreWords(gaps, Tokens(s)) && s == Joined(gaps, Tokens(s))
    decreases |s|
  {
    hide AreWords, Joined, IsGap, IsWord;
    if s == "" {
      gaps := [""];
      NoWords();
    } else if IsSpace(s[0]) {
      var rest := TokensRejoin(s[1..]);
      gaps := MoreSpace(s[0], rest, Tokens(s[1..]));
      assert s == [s[0]] + s[1..];
    } else {
      var n := WordLength(s);
      var rest := TokensRejoin(s[n..]);
      GapIsSpace(s[..n]);
      GapBeforeWord(s[n..], rest, Tokens(s[n..]));
      MoreWord(s[..n], rest, Tokens(s[n..]));
      gaps := [""] + rest;
      assert s == s[..n] + s[n..];
    }
  }

  lemma NoWords()
    ensures AreWords([""], []) && Joined([""], []) == ""
  {
  }

  lemma GapBeforeWord(s: string, gaps: seq<string>, words: seq<string>)
    requires AreWords(gaps, words) && s == Joined(gaps, words) && (s != "" ==> IsSpace(s[0]))
    ensures |gaps| == |words| + 1 && (words != [] ==> gaps[0] != "")
  {
    if words != [] {
      GapIsSpace(words[0]);
      assert s[|gaps[0]|] == words[0][0];
    }
  }

  lemma NoTokens()
    ensures Tokens("") == []
  {
  }

  lemma {:induction false} TokensOfJoined(gaps: seq<string>, words: seq<string>)
    requires AreWords(gaps, words)
    ensures Tokens(Joined(gaps, words)) == words
  {
    hide Tokens, IsGap, IsWord;
    GapIsSpace(gaps[0]);
    if words == [] {
      TokensAfterSpace(gaps[0], "");
      assert gaps[0] + "" == gaps[0];
      NoTokens();
    } else {
      var rest := Joined(gaps[1..], words[1..]);
      GapIsSpace(words[0]);
      GapIsSpace(gaps[1]);
      assert |words| == 1 ==> rest == gaps[1];
      assert gaps[0] + words[0] + rest == gaps[0] + (words[0] + rest);
      TokensAfterSpace(gaps[0], words[0] + rest);
      TokensWord(words[0], rest);
      TokensOfJoined(gaps[1..], words[1..]);
    }
  }

  /** The tokens of a text are its maximal runs of characters that are no white space, in order. */
  lemma TokensIff(s: string, words: seq<string>)
    ensures Tokens(s) == words <==> exists gaps :: AreWords(gaps, words) && s == Joined(gaps, words)
  {
    var gaps := TokensRejoin(s);
    if gaps' :| AreWords(gaps', words) && s == Joined(gaps', words) {
      TokensOfJoined(gaps', words);
    }
  }
}
