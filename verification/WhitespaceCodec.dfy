/** Joining strings with spaces, with backslash escapes, and splitting them again. */
module WhitespaceCodec {
  import opened Wrappers
  import opened Text
  import opened Selection

  const BACKSLASH: char := '\\'
  const SPACE: char := ' '

  /** Python's `s.replace(c, with)` for a single character. */
  function Replace(s: string, c: char, with: string): string {
    if s == [] then []
    else (if s[0] == c then with else [s[0]]) + Replace(s[1..], c, with)
  }

  /** The two replacements of the source, one after the other. */
  function Escape(s: string): string {
    Replace(Replace(s, BACKSLASH, [BACKSLASH, BACKSLASH]), SPACE, [BACKSLASH, SPACE])
  }

  function Escaped(args: seq<string>): (r: seq<string>)
    ensures |r| == |args| && forall i :: 0 <= i < |args| ==> r[i] == Escape(args[i])
  {
    seq(|args|, i requires 0 <= i < |args| => Escape(args[i]))
  }

  /** The empty list has no text; the list of one empty string has the empty text. */
  function StrWhitespaceJoin(args: seq<string>): Option<string> {
    if args == [] then None else Some(Join(Escaped(args), SPACE))
  }

  /** One escape or character at the head of a text: what it stands for, and what remains. */
  function Token(s: string): (r: (string, string))
    requires s != []
    ensures |r.1| < |s|
  {
    if s[0] == BACKSLASH && |s| > 1 then
      (if s[1] == BACKSLASH || s[1] == SPACE then [s[1]] else s[..2], s[2..])
    else ([s[0]], s[1..])
  }

  /** The words of a text that starts inside a word. */
  function Words(s: string, word: string): (r: seq<string>)
    ensures r != []
    decreases |s|
  {
    if s == [] then [word]
    else if s[0] == SPACE then [word] + Words(s[1..], "")
    else Words(Token(s).1, word + Token(s).0)
  }

  function NonEmpty(words: seq<string>): seq<string> {
    if words == [] then [] else (if words[0] == "" then [] else [words[0]]) + NonEmpty(words[1..])
  }

  ghost function Splitting(text: Option<string>, removeEmpty: bool): seq<string> {
    match text
    case None => []
    case Some(s) => if removeEmpty then NonEmpty(Words(s, "")) else Words(s, "")
  }

  method StrWhitespaceSplit(text: Option<string>, removeEmpty: bool) returns (result: seq<string>)
    ensures result == Splitting(text, removeEmpty)
  {
    if text.None? {
      return [];
    }
    var s := text.value;
    var i, word := 0, "";
    result := [];
    assert s[0..] == s;
    while i < |s|
      invariant 0 <= i <= |s|
      invariant Words(s, "") == result + Words(s[i..], word)
    {
      var c := s[i];
      ghost var rest := s[i..];
      i := i + 1;
      assert s[i..] == rest[1..];
      if c == SPACE {
        assert result + ([word] + Words(rest[1..], "")) == result + [word] + Words(rest[1..], "");
        result := result + [word];
        word := "";
        continue;
      }
      if c == BACKSLASH && i < |s| {
        var c2 := s[i];
        i := i + 1;
        assert s[i..] == rest[2..] && rest[1] == c2;
        if c2 == BACKSLASH {
          word := word + [BACKSLASH];
        } else if c2 == SPACE {
          word := word + [SPACE];
        } else {
          assert rest[..2] == [BACKSLASH, c2];
          word := word + [BACKSLASH, c2];
        }
      } else {
        word := word + [c];
      }
    }
    assert s[|s|..] == [];
    result := result + [word];
    if removeEmpty {
      result := NonEmpty(result);
    }
  }

  // ----- Round trips -----

  /** Escaping in two passes escapes each character once: the second pass leaves the backslashes of the first alone. */
  lemma EscapeStep(s: string)
    requires s != []
    ensures Escape(s) == (if s[0] == BACKSLASH || s[0] == SPACE then [BACKSLASH, s[0]] else [s[0]]) + Escape(s[1..])
  {
    var c, rest := s[0], Replace(s[1..], BACKSLASH, [BACKSLASH, BACKSLASH]);
    if c == BACKSLASH {
      var t := [BACKSLASH, BACKSLASH] + rest;
      assert t[1..] == [BACKSLASH] + rest && t[1..][1..] == rest;
      assert Replace(t, SPACE, [BACKSLASH, SPACE]) == [BACKSLASH] + Replace(t[1..], SPACE, [BACKSLASH, SPACE]);
    } else {
      assert ([c] + rest)[1..] == rest;
    }
  }

  /** Reading an escaped word gives back the word, up to what follows it. */
  lemma {:induction false} ReadEscaped(a: string, word: string, tail: string)
    requires tail == [] || tail[0] == SPACE
    ensures Words(Escape(a) + tail, word) == Words(tail, word + a)
    decreases |a|
  {
    if a == [] {
      assert Escape(a) + tail == tail && word + a == word;
    } else {
      EscapeStep(a);
      ReadEscaped(a[1..], word + [a[0]], tail);
      var head := if a[0] == BACKSLASH || a[0] == SPACE then [BACKSLASH, a[0]] else [a[0]];
      var s, rest := Escape(a) + tail, Escape(a[1..]) + tail;
      assert s == head + rest && s[|head|..] == rest && s[0] == head[0];
      assert Token(s) == ([a[0]], rest);
      assert word + [a[0]] + a[1..] == word + a;
    }
  }

  lemma {:induction false} WordsOfJoin(args: seq<string>)
    requires args != []
    ensures Words(Join(Escaped(args), SPACE), "") == args
  {
    var a := args[0];
    if |args| == 1 {
      ReadEscaped(a, "", []);
      assert Escape(a) + [] == Join(Escaped(args), SPACE) && "" + a == a;
    } else {
      var tail := Join(Escaped(args[1..]), SPACE);
      assert Escaped(args)[1..] == Escaped(args[1..]);
      WordsOfJoin(args[1..]);
      ReadEscaped(a, "", [SPACE] + tail);
      assert Join(Escaped(args), SPACE) == Escape(a) + ([SPACE] + tail);
      assert ([SPACE] + tail)[1..] == tail && "" + a == a;
      assert args == [a] + args[1..];
    }
  }

  /** Splitting undoes joining, for every list of strings; dropping empty words drops exactly the empty strings. */
  lemma SplitAfterJoin(args: seq<string>)
    ensures Splitting(StrWhitespaceJoin(args), false) == args
    ensures Splitting(StrWhitespaceJoin(args), true) == NonEmpty(args)
  {
    if args != [] {
      WordsOfJoin(args);
    }
  }

  lemma JoinIsInjective(a: seq<string>, b: seq<string>)
    requires StrWhitespaceJoin(a) == StrWhitespaceJoin(b)
    ensures a == b
  {
    SplitAfterJoin(a);
    SplitAfterJoin(b);
  }

  /** A text made of words without spaces and backslashes splits as at plain spaces. */
  lemma {:induction false} PlainText(s: string, word: string)
    requires BACKSLASH !in s
    ensures var parts := Split(s, SPACE); Words(s, word) == [word + parts[0]] + parts[1..]
    decreases |s|
  {
    if s == [] {
      assert word + "" == word;
    } else {
      assert s[0] in s;
      var rest := Split(s[1..], SPACE);
      if s[0] == SPACE {
        PlainText(s[1..], "");
        assert "" + rest[0] == rest[0] && [rest[0]] + rest[1..] == rest;
        assert ([""] + rest)[1..] == rest && word + "" == word;
      } else {
        PlainText(s[1..], word + [s[0]]);
        assert word + [s[0]] + rest[0] == word + ([s[0]] + rest[0]);
        assert Split(s, SPACE)[1..] == rest[1..];
      }
    }
  }

  // ----- What every text means -----

  /** How a piece of a word is written: a character as it is, an escaped backslash or space, or a backslash that stays. */
  datatype Unit = Plain(c: char) | EscapedBackslash | EscapedSpace | Literal(c: char) | LastBackslash

  /** Plain characters are no spaces or backslashes, a backslash stays before anything else, and at the very end of a text. */
  predicate IsUnit(u: Unit, atEnd: bool) {
    match u
    case Plain(c) => c != ' ' && c != '\\'
    case Literal(c) => c != ' ' && c != '\\'
    case LastBackslash => atEnd
    case _ => true
  }

  function Spelling(u: Unit): string {
    match u
    case Plain(c) => [c]
    case EscapedBackslash => "\\\\"
    case EscapedSpace => "\\ "
    case Literal(c) => ['\\', c]
    case LastBackslash => "\\"
  }

  function Meaning(u: Unit): string {
    match u
    case Plain(c) => [c]
    case EscapedBackslash => "\\"
    case EscapedSpace => " "
    case Literal(c) => ['\\', c]
    case LastBackslash => "\\"
  }

  function Spelled(us: seq<Unit>): string {
    if us == [] then "" else Spelling(us[0]) + Spelled(us[1..])
  }

  function Meant(us: seq<Unit>): string {
    if us == [] then "" else Meaning(us[0]) + Meant(us[1..])
  }

  /** Words of units, separated by single spaces; only the last unit of the last word may be a lone backslash. */
  predicate IsWriting(words: seq<seq<Unit>>) {
    && words != []
    && forall i, j :: 0 <= i < |words| && 0 <= j < |words[i]| ==>
         IsUnit(words[i][j], i == |words| - 1 && j == |words[i]| - 1)
  }

  function Texts(words: seq<seq<Unit>>): (r: seq<string>)
    ensures |r| == |words| && forall i :: 0 <= i < |words| ==> r[i] == Spelled(words[i])
  {
    seq(|words|, i requires 0 <= i < |words| => Spelled(words[i]))
  }

  function Meanings(words: seq<seq<Unit>>): (r: seq<string>)
    ensures |r| == |words| && forall i :: 0 <= i < |words| ==> r[i] == Meant(words[i])
  {
    seq(|words|, i requires 0 <= i < |words| => Meant(words[i]))
  }

  lemma ReadUnit(u: Unit, tail: string, word: string)
    requires IsUnit(u, tail == "")
    ensures Words(Spelling(u) + tail, word) == Words(tail, word + Meaning(u))
  {
    var s := Spelling(u) + tail;
    assert s[|Spelling(u)|..] == tail && s[0] == Spelling(u)[0];
    if |Spelling(u)| == 2 { assert s[1] == Spelling(u)[1] && s[..2] == Spelling(u); }
    assert Token(s) == (Meaning(u), tail);
  }

  /** Reading the units of a word gives their meaning, up to what follows them. */
  lemma {:induction false} ReadUnits(us: seq<Unit>, tail: string, word: string)
    requires forall j :: 0 <= j < |us| ==> IsUnit(us[j], tail == "" && j == |us| - 1)
    ensures Words(Spelled(us) + tail, word) == Words(tail, word + Meant(us))
    decreases |us|
  {
    if us == [] {
      assert Spelled(us) + tail == tail && word + Meant(us) == word;
    } else {
      var rest := Spelled(us[1..]) + tail;
      assert Spelled(us) + tail == Spelling(us[0]) + rest;
      if |us| > 1 { SpelledNotEmpty(us[1..]); }
      assert rest == "" ==> |us| == 1 && tail == "";
      UnitBefore(us[0], rest, tail == "" && |us| == 1);
      ReadUnit(us[0], rest, word);
      ReadUnits(us[1..], tail, word + Meaning(us[0]));
      assert word + Meaning(us[0]) + Meant(us[1..]) == word + Meant(us);
    }
  }

  lemma SpelledNotEmpty(us: seq<Unit>)
    requires us != []
    ensures Spelled(us) != ""
  {
  }

  lemma UnitBefore(u: Unit, rest: string, atEnd: bool)
    requires IsUnit(u, atEnd) && (atEnd ==> rest == "")
    ensures IsUnit(u, rest == "")
  {
  }

  lemma FirstWord(words: seq<seq<Unit>>)
    requires |words| > 1
    ensures Join(Texts(words), ' ') == Spelled(words[0]) + ([' '] + Join(Texts(words[1..]), ' '))
    ensures Meanings(words) == [Meant(words[0])] + Meanings(words[1..])
  {
    assert Texts(words)[1..] == Texts(words[1..]);
  }

  lemma OtherWords(words: seq<seq<Unit>>)
    requires IsWriting(words) && |words| > 1
    ensures IsWriting(words[1..]) && forall j :: 0 <= j < |words[0]| ==> IsUnit(words[0][j], false)
  {
    var more := words[1..];
    forall i, j | 0 <= i < |more| && 0 <= j < |more[i]| ensures IsUnit(more[i][j], i == |more| - 1 && j == |more[i]| - 1) {
      assert more[i] == words[i+1];
    }
  }

  /** Reading a word that another follows. */
  lemma ReadWord(us: seq<Unit>, text: string)
    requires forall j :: 0 <= j < |us| ==> IsUnit(us[j], false)
    ensures Words(Spelled(us) + ([' '] + text), "") == [Meant(us)] + Words(text, "")
  {
    var tail := [' '] + text;
    ReadUnits(us, tail, "");
    assert tail[1..] == text && "" + Meant(us) == Meant(us);
  }

  /** Every way of writing words splits into what it means. */
  lemma {:induction false} SplitOfWriting(words: seq<seq<Unit>>)
    requires IsWriting(words)
    ensures Words(Join(Texts(words), ' '), "") == Meanings(words)
    decreases |words|
  {
    if |words| == 1 {
      ReadUnits(words[0], "", "");
      assert Spelled(words[0]) + "" == Join(Texts(words), ' ') && "" + Meant(words[0]) == Meant(words[0]);
    } else {
      OtherWords(words);
      SplitOfWriting(words[1..]);
      FirstWord(words);
      ReadWord(words[0], Join(Texts(words[1..]), ' '));
    }
  }

  /** The unit at the head of a text that does not start with a space. */
  function HeadUnit(s: string): (u: Unit)
    requires s != "" && s[0] != ' '
    ensures Spelling(u) <= s && IsUnit(u, |s| == 1)
  {
    if s[0] != '\\' then Plain(s[0])
    else if |s| == 1 then LastBackslash
    else if s[1] == '\\' then EscapedBackslash
    else if s[1] == ' ' then EscapedSpace
    else Literal(s[1])
  }

  /** The writing of a text. */
  function Writing(s: string): (words: seq<seq<Unit>>)
    ensures words != []
    decreases |s|
  {
    if s == "" then [[]]
    else if s[0] == ' ' then [[]] + Writing(s[1..])
    else
      var u := HeadUnit(s);
      var rest := Writing(s[|Spelling(u)|..]);
      [[u] + rest[0]] + rest[1..]
  }

  /** An empty word before the others. */
  lemma EmptyWordBefore(rest: seq<seq<Unit>>, tail: string)
    requires IsWriting(rest) && Join(Texts(rest), ' ') == tail
    ensures IsWriting([[]] + rest) && Join(Texts([[]] + rest), ' ') == [' '] + tail
  {
    var words := [[]] + rest;
    assert Texts(words)[1..] == Texts(rest) && Texts(words)[0] == "";
    forall i, j | 0 <= i < |words| && 0 <= j < |words[i]| ensures IsUnit(words[i][j], i == |words| - 1 && j == |words[i]| - 1) {
      assert words[i] == rest[i-1];
    }
  }

  lemma LastIsAtEnd(u: Unit, rest: seq<seq<Unit>>)
    requires IsWriting(rest) && IsUnit(u, Join(Texts(rest), ' ') == "")
    ensures IsUnit(u, |rest| == 1 && rest[0] == [])
  {
    if |rest| == 1 && rest[0] != [] { SpelledNotEmpty(rest[0]); }
  }

  lemma WritingBefore(u: Unit, rest: seq<seq<Unit>>)
    requires IsWriting(rest) && IsUnit(u, |rest| == 1 && rest[0] == [])
    ensures IsWriting([[u] + rest[0]] + rest[1..])
  {
    var words := [[u] + rest[0]] + rest[1..];
    forall i, j | 0 <= i < |words| && 0 <= j < |words[i]| ensures IsUnit(words[i][j], i == |words| - 1 && j == |words[i]| - 1) {
      if i > 0 { assert words[i] == rest[i]; } else if j > 0 { assert words[0][j] == rest[0][j-1]; }
    }
  }

  /** A unit before the first word. */
  lemma PutBefore(u: Unit, rest: seq<seq<Unit>>, tail: string)
    requires IsWriting(rest) && Join(Texts(rest), ' ') == tail && IsUnit(u, tail == "")
    ensures var words := [[u] + rest[0]] + rest[1..]; IsWriting(words) && Join(Texts(words), ' ') == Spelling(u) + tail
  {
    var words := [[u] + rest[0]] + rest[1..];
    LastIsAtEnd(u, rest);
    WritingBefore(u, rest);
    assert Spelled(words[0]) == Spelling(u) + Spelled(rest[0]) by { assert words[0][1..] == rest[0]; }
    assert Texts(words)[1..] == Texts(rest)[1..];
  }

  lemma UnitThenText(s: string)
    requires s != "" && s[0] != ' '
    ensures var u := HeadUnit(s); var tail := s[|Spelling(u)|..];
            s == Spelling(u) + tail && |tail| < |s| && IsUnit(u, tail == "") && Writing(s) == [[u] + Writing(tail)[0]] + Writing(tail)[1..]
  {
  }

  lemma {:induction false} WritingOfText(s: string)
    ensures IsWriting(Writing(s)) && Join(Texts(Writing(s)), ' ') == s
    decreases |s|
  {
    if s == "" {
      assert Texts([[]])[0] == "";
    } else if s[0] == ' ' {
      WritingOfText(s[1..]);
      EmptyWordBefore(Writing(s[1..]), s[1..]);
    } else {
      UnitThenText(s);
      var u := HeadUnit(s);
      var tail := s[|Spelling(u)|..];
      WritingOfText(tail);
      PutBefore(u, Writing(tail), tail);
    }
  }

  /** Every text is written in some way, and splits into what that means: this determines the words of every text. */
  lemma EveryTextIsWritten(s: string)
    ensures exists words :: IsWriting(words) && Join(Texts(words), ' ') == s && Words(s, "") == Meanings(words)
  {
    WritingOfText(s);
    SplitOfWriting(Writing(s));
  }

  lemma {:induction false} NonEmptyIsSelected(words: seq<string>)
    ensures NonEmpty(words) == Select((w: string) => w != "", (w: string) => w, words)
  {
    if words != [] { NonEmptyIsSelected(words[1..]); }
  }

  /** r lists, in order, the words that are not empty, at the positions idx. */
  ghost predicate Kept(words: seq<string>, idx: seq<nat>, r: seq<string>) {
    Selects((w: string) => w != "", (w: string) => w, words, idx, r)
  }

  /** Dropping empty words keeps all others in order. */
  lemma SplitKeeps(text: Option<string>) returns (idx: seq<nat>)
    ensures Kept(Splitting(text, false), idx, Splitting(text, true))
  {
    var words := Splitting(text, false);
    NonEmptyIsSelected(words);
    idx := SelectSelects((w: string) => w != "", (w: string) => w, words);
  }
}
