/**
 Text made of lines of words: cutting it up, and writing it so that cutting it up gives the words back.
 */
module BristolText {

  /** White space characters of Unicode. */
  predicate IsSpace(c: char) {
    var n := c as int;
    9 <= n <= 13 || n == 32 || n == 0x85 || n == 0xA0 || n == 0x1680 || 0x2000 <= n <= 0x200A || n == 0x2028 || n == 0x2029 || n == 0x202F ||
    n == 0x205F || n == 0x3000
  }

  function WordLength(s: string): (n: nat)
    ensures n <= |s| && (forall i | 0 <= i < n :: !IsSpace(s[i])) && (n < |s| ==> IsSpace(s[n]))
  {
    if s == [] || IsSpace(s[0]) then 0 else 1 + WordLength(s[1..])
  }

  /** The words of a line. */
  function Tokens(s: string): seq<string>
    decreases |s|
  {
    if s == [] then []
    else if IsSpace(s[0]) then Tokens(s[1..])
    else [s[..WordLength(s)]] + Tokens(s[WordLength(s)..])
  }

  function LineLength(s: string): (n: nat)
    ensures n <= |s| && (forall i | 0 <= i < n :: s[i] != '\n') && (n < |s| ==> s[n] == '\n')
  {
    if s == [] || s[0] == '\n' then 0 else 1 + LineLength(s[1..])
  }

  /** The words of each line that has any. */
  function Records(text: string): (r: seq<seq<string>>)
    ensures forall i | 0 <= i < |r| :: |r[i]| > 0
    decreases |text|
  {
    if text == [] then []
    else
      var n := LineLength(text);
      var words := Tokens(text[..n]);
      var rest := if n < |text| then Records(text[n + 1..]) else [];
      if words == [] then rest else [words] + rest
  }

  // ---------------------------------------------------------------- writing

  predicate Clean(word: string) {
    word != [] && forall i | 0 <= i < |word| :: !IsSpace(word[i])
  }

  function Join(words: seq<string>): string {
    if words == [] then []
    else if |words| == 1 then words[0]
    else words[0] + " " + Join(words[1..])
  }

  function Line(words: seq<string>): string {
    Join(words) + "\n"
  }

  lemma {:induction false} WordThen(word: string, rest: string)
    requires (forall i | 0 <= i < |word| :: !IsSpace(word[i])) && (rest == [] || IsSpace(rest[0]))
    ensures WordLength(word + rest) == |word|
    decreases |word|
  {
    if word != [] {
      assert (word + rest)[1..] == word[1..] + rest;
      WordThen(word[1..], rest);
    } else {
      assert word + rest == rest;
    }
  }

  lemma TokensWord(word: string, rest: string)
    requires Clean(word) && (rest == [] || IsSpace(rest[0]))
    ensures Tokens(word + rest) == [word] + Tokens(rest)
  {
    WordThen(word, rest);
    assert (word + rest)[..|word|] == word && (word + rest)[|word|..] == rest;
  }

  lemma {:induction false} TokensJoin(words: seq<string>)
    requires forall i | 0 <= i < |words| :: Clean(words[i])
    ensures Tokens(Join(words)) == words
    decreases |words|
  {
    if |words| == 1 {
      TokensWord(words[0], []);
      assert words[0] + [] == words[0];
    } else if |words| > 1 {
      TokensJoin(words[1..]);
      var rest := " " + Join(words[1..]);
      TokensWord(words[0], rest);
      assert rest[1..] == Join(words[1..]);
      assert words[0] + " " + Join(words[1..]) == words[0] + rest;
      assert words == [words[0]] + words[1..];
    }
  }

  lemma {:induction false} JoinNoBreak(words: seq<string>)
    requires forall i | 0 <= i < |words| :: Clean(words[i])
    ensures forall i | 0 <= i < |Join(words)| :: Join(words)[i] != '\n'
    decreases |words|
  {
    if |words| > 1 {
      JoinNoBreak(words[1..]);
    }
  }

  lemma {:induction false} LineThen(line: string, rest: string)
    requires forall i | 0 <= i < |line| :: line[i] != '\n'
    ensures LineLength(line + "\n" + rest) == |line|
    decreases |line|
  {
    if line != [] {
      assert (line + "\n" + rest)[1..] == line[1..] + "\n" + rest;
      LineThen(line[1..], rest);
    } else {
      assert line + "\n" + rest == "\n" + rest;
    }
  }

  /** A written line is read back as its words. */
  lemma RecordsLine(words: seq<string>, rest: string)
    requires forall i | 0 <= i < |words| :: Clean(words[i])
    ensures Records(Line(words) + rest) == if words == [] then Records(rest) else [words] + Records(rest)
  {
    hide Join, Tokens, LineLength;
    var text := Line(words) + rest;
    var line := Join(words);
    JoinNoBreak(words);
    LineThen(line, rest);
    assert text == line + "\n" + rest;
    assert text[..|line|] == line && text[|line| + 1..] == rest;
    TokensJoin(words);
  }
}
