/** The pandoc-like citation-string parser `zot_parse_cite_string`:
    the text of a `:zc:` role is cut into words at spaces and `|`, exactly one
    word must be a citation key (`@Key` or `-@Key`), and the words around it
    become the prefix, the locator and the suffix. */
module CiteParser {
  import opened Common

  datatype ParseError = NoKeyFound(text: string) | TooManyKeys(text: string)

  /** The keyword arguments the parser hands to `ZoteroCitationInfo`
      (before alias resolution and item lookup). */
  datatype ParsedCite = ParsedCite(
    key: string,
    suppressAuthor: bool,
    prefix: string,
    locator: string,
    suffix: string)

  // ---------------------------------------------------------------------
  // Tokenising: `[n for n in re.split(r"( |\|)", s) if n != ' ' and n != '']`
  // ---------------------------------------------------------------------

  predicate IsSeparator(c: char) { c == ' ' || c == '|' }

  predicate SeparatorFree(w: string)
  {
    forall i :: 0 <= i < |w| ==> !IsSeparator(w[i])
  }

  /** `re.split(r"( |\|)", s)`: because the pattern is one captured character,
      the result alternates field, separator, field, …, field. */
  function RegexSplit(s: string): (r: seq<string>)
    ensures |r| % 2 == 1
    decreases |s|
  {
    if s == [] then [""]
    else if IsSeparator(s[0]) then ["", [s[0]]] + RegexSplit(s[1..])
    else
      var rest := RegexSplit(s[1..]);
      [[s[0]] + rest[0]] + rest[1..]
  }

  /** Even positions hold the separator-free fields, odd positions one separator each. */
  lemma {:induction false} RegexSplitShape(s: string)
    ensures forall i :: 0 <= i < |RegexSplit(s)| && i % 2 == 0 ==> SeparatorFree(RegexSplit(s)[i])
    ensures forall i :: 0 <= i < |RegexSplit(s)| && i % 2 == 1 ==>
              |RegexSplit(s)[i]| == 1 && IsSeparator(RegexSplit(s)[i][0])
    decreases |s|
  {
    if s != [] {
      RegexSplitShape(s[1..]);
      var rest := RegexSplit(s[1..]);
      if IsSeparator(s[0]) {
        assert RegexSplit(s) == ["", [s[0]]] + rest;
      } else {
        var r := RegexSplit(s);
        assert r == [[s[0]] + rest[0]] + rest[1..];
        forall i | 0 <= i < |r| && i % 2 == 0 ensures SeparatorFree(r[i]) {
          if i > 0 { assert r[i] == rest[i]; }
        }
      }
    }
  }

  /** Splitting loses nothing: joining the pieces gives back the text. */
  lemma {:induction false} RegexSplitConcat(s: string)
    ensures Concat(RegexSplit(s)) == s
    decreases |s|
  {
    if s != [] {
      RegexSplitConcat(s[1..]);
      var rest := RegexSplit(s[1..]);
      if IsSeparator(s[0]) {
        ConcatAppend(["", [s[0]]], rest);
        assert Concat(["", [s[0]]]) == [s[0]];
      } else {
        ConcatAppend([[s[0]] + rest[0]], rest[1..]);
        assert rest == [rest[0]] + rest[1..];
        ConcatAppend([rest[0]], rest[1..]);
      }
    }
  }

  /** The list-comprehension filter: space tokens and empty strings are dropped. */
  predicate Kept(w: string) { w != " " && w != "" }

  /** The words of a citation string, as the source computes them. */
  function Tokens(s: string): (r: seq<string>)
    ensures forall i :: 0 <= i < |r| ==> r[i] != "" && r[i] != " "
  {
    Filter(Kept, RegexSplit(s))
  }

  /** Length of the separator-free run at the start of `s`. */
  function WordLength(s: string): (n: nat)
    ensures n <= |s| && SeparatorFree(s[..n])
    ensures n < |s| ==> IsSeparator(s[n])
    ensures s != [] && !IsSeparator(s[0]) ==> n >= 1
  {
    if s == [] || IsSeparator(s[0]) then 0 else 1 + WordLength(s[1..])
  }

  /** Reference tokeniser, read left to right: a space is skipped, a `|` is a
      token of its own, and any other character starts a word that runs to
      the next separator. */
  function Lex(s: string): (r: seq<string>)
    decreases |s|
  {
    if s == [] then []
    else if s[0] == ' ' then Lex(s[1..])
    else if s[0] == '|' then ["|"] + Lex(s[1..])
    else
      var n := WordLength(s);
      [s[..n]] + Lex(s[n..])
  }

  lemma {:induction false} RegexSplitWord(w: string, t: string)
    requires SeparatorFree(w)
    ensures RegexSplit(w + t) == [w + RegexSplit(t)[0]] + RegexSplit(t)[1..]
    decreases |w|
  {
    if w != [] {
      assert (w + t)[1..] == w[1..] + t;
      RegexSplitWord(w[1..], t);
      assert [w[0]] + (w[1..] + RegexSplit(t)[0]) == w + RegexSplit(t)[0];
    } else {
      assert w + t == t;
      assert w + RegexSplit(t)[0] == RegexSplit(t)[0];
      assert RegexSplit(t) == [RegexSplit(t)[0]] + RegexSplit(t)[1..];
    }
  }

  /** The source's split-and-filter tokeniser is the reference tokeniser. */
  lemma {:induction false} TokensAreLex(s: string)
    ensures Tokens(s) == Lex(s)
    decreases |s|
  {
    if s == [] {
    } else if IsSeparator(s[0]) {
      TokensAreLex(s[1..]);
      FilterAppend(Kept, ["", [s[0]]], RegexSplit(s[1..]));
      assert Filter(Kept, ["", [s[0]]]) == (if s[0] == ' ' then [] else ["|"]);
    } else {
      var n := WordLength(s);
      var w, t := s[..n], s[n..];
      assert s == w + t;
      TokensAreLex(t);
      RegexSplitWord(w, t);
      var rt := RegexSplit(t);
      if t == [] {
        assert rt == [""] && w + rt[0] == w;
        assert RegexSplit(s) == [w];
      } else {
        assert rt == ["", [t[0]]] + RegexSplit(t[1..]);
        assert rt[0] == "" && rt == [rt[0]] + rt[1..];
        assert w + rt[0] == w;
        assert RegexSplit(s) == [w] + rt[1..];
        FilterAppend(Kept, [w], rt[1..]);
        FilterAppend(Kept, [rt[0]], rt[1..]);
      }
    }
  }

  /** Every token is either the pipe or a non-empty run of other characters. */
  lemma {:induction false} LexShape(s: string)
    ensures forall i :: 0 <= i < |Lex(s)| ==> Lex(s)[i] == "|" || (Lex(s)[i] != "" && SeparatorFree(Lex(s)[i]))
    decreases |s|
  {
    if s == [] {
    } else if IsSeparator(s[0]) {
      LexShape(s[1..]);
    } else {
      LexShape(s[WordLength(s)..]);
    }
  }

  /** The text with its spaces removed (`|` kept). */
  function WithoutSpaces(s: string): (r: string)
    ensures |r| <= |s|
  {
    if s == [] then "" else (if s[0] == ' ' then "" else [s[0]]) + WithoutSpaces(s[1..])
  }

  lemma {:induction false} WithoutSpacesAppend(a: string, b: string)
    ensures WithoutSpaces(a + b) == WithoutSpaces(a) + WithoutSpaces(b)
    decreases |a|
  {
    if a != [] {
      assert (a + b)[1..] == a[1..] + b;
      WithoutSpacesAppend(a[1..], b);
    } else {
      assert a + b == b;
    }
  }

  lemma {:induction false} WithoutSpacesOfWord(w: string)
    requires SeparatorFree(w)
    ensures WithoutSpaces(w) == w
    decreases |w|
  {
    if w != [] { WithoutSpacesOfWord(w[1..]); }
  }

  /** Only spaces are lost: the tokens spell out the text minus its spaces,
      in order, with every other character unchanged. */
  lemma {:induction false} LexConcat(s: string)
    ensures Concat(Lex(s)) == WithoutSpaces(s)
    decreases |s|
  {
    if s == [] {
    } else if IsSeparator(s[0]) {
      LexConcat(s[1..]);
      if s[0] == '|' { ConcatAppend(["|"], Lex(s[1..])); }
    } else {
      var n := WordLength(s);
      LexConcat(s[n..]);
      ConcatAppend([s[..n]], Lex(s[n..]));
      assert s == s[..n] + s[n..];
      WithoutSpacesAppend(s[..n], s[n..]);
      WithoutSpacesOfWord(s[..n]);
    }
  }

  /** Text made only of spaces (or nothing) has no tokens at all. */
  lemma {:induction false} BlankHasNoTokens(s: string)
    requires forall i :: 0 <= i < |s| ==> s[i] == ' '
    ensures Tokens(s) == []
    decreases |s|
  {
    TokensAreLex(s);
    if s != [] {
      BlankHasNoTokens(s[1..]);
      TokensAreLex(s[1..]);
    }
  }

  // ---------------------------------------------------------------------
  // Keys: `re.match(r'(-?)@([A-Za-z0-9_-]+),?', word)`
  // ---------------------------------------------------------------------

  predicate IsKeyChar(c: char)
  {
    ('A' <= c <= 'Z') || ('a' <= c <= 'z') || ('0' <= c <= '9') || c == '_' || c == '-'
  }

  predicate AllKeyChars(s: string)
  {
    forall i :: 0 <= i < |s| ==> IsKeyChar(s[i])
  }

  /** The greedy `[A-Za-z0-9_-]*` run at the start of `s`. */
  function KeyRun(s: string): (k: string)
    ensures |k| <= |s| && k == s[..|k|] && AllKeyChars(k)
    ensures |k| < |s| ==> !IsKeyChar(s[|k|])
  {
    if s == [] || !IsKeyChar(s[0]) then "" else [s[0]] + KeyRun(s[1..])
  }

  /** The run is determined by where the key characters stop. */
  lemma {:induction false} KeyRunOf(key: string, rest: string)
    requires AllKeyChars(key)
    requires rest == [] || !IsKeyChar(rest[0])
    ensures KeyRun(key + rest) == key
    decreases |key|
  {
    if key != [] {
      assert (key + rest)[1..] == key[1..] + rest;
      KeyRunOf(key[1..], rest);
    } else {
      assert key + rest == rest;
    }
  }

  /** The two groups of a successful match: whether group 1 is `-`, and group 2. */
  datatype KeyMatch = KeyMatch(suppressAuthor: bool, key: string)

  /** The pattern is anchored at the start only (`re.match`), so a word matches
      when it begins with `@` or `-@` followed by at least one key character;
      whatever follows the greedy run (a comma or anything else) is ignored. */
  function MatchKey(w: string): (r: Option<KeyMatch>)
    ensures r.Some? ==> r.value.key != "" && AllKeyChars(r.value.key)
    ensures r.Some? ==> |w| >= 2 && (r.value.suppressAuthor <==> w[0] == '-')
  {
    if |w| >= 2 && w[0] == '@' && IsKeyChar(w[1]) then
      Some(KeyMatch(false, KeyRun(w[1..])))
    else if |w| >= 3 && w[0] == '-' && w[1] == '@' && IsKeyChar(w[2]) then
      Some(KeyMatch(true, KeyRun(w[2..])))
    else None
  }

  /** `is_key`: whether a word matches the key pattern. */
  predicate IsKey(w: string)
    ensures IsKey(w) ==> |w| >= 2 && (w[0] == '@' || (w[0] == '-' && w[1] == '@'))
  {
    MatchKey(w).Some?
  }

  /** Exactly which words match, and what they yield: a word `@key…` (or
      `-@key…`) yields `key` precisely when `key` is a non-empty run of key
      characters that is not followed by another key character. */
  lemma {:induction false} MatchKeyIff(w: string, suppressAuthor: bool, key: string, rest: string)
    requires w == (if suppressAuthor then "-@" else "@") + key + rest
    ensures MatchKey(w) == Some(KeyMatch(suppressAuthor, key)) <==>
              key != "" && AllKeyChars(key) && (rest == [] || !IsKeyChar(rest[0]))
  {
    var p := if suppressAuthor then 2 else 1;
    assert w[p..] == key + rest;
    if key != "" && AllKeyChars(key) && (rest == [] || !IsKeyChar(rest[0])) {
      KeyRunOf(key, rest);
    }
    if MatchKey(w) == Some(KeyMatch(suppressAuthor, key)) {
      assert key == KeyRun(key + rest);
      assert rest == (key + rest)[|key|..];
    }
  }

  /** The converse: every matching word has that form, the prefix `@` or
      `-@`, then the key, then a rest that does not start with a key
      character. */
  lemma MatchKeyShape(w: string)
    requires IsKey(w)
    ensures var m := MatchKey(w).value;
            var p := if m.suppressAuthor then "-@" else "@";
            var rest := w[|p| + |m.key|..];
            |p| + |m.key| <= |w| && w == p + m.key + rest &&
            (rest == [] || !IsKeyChar(rest[0]))
  {
    var m := MatchKey(w).value;
    var p := if m.suppressAuthor then "-@" else "@";
    assert w[..|p|] == p;
    assert w[|p|..][..|m.key|] == m.key;
    assert w == w[..|p|] + w[|p|..][..|m.key|] + w[|p| + |m.key|..];
  }

  // ---------------------------------------------------------------------
  // The parser
  // ---------------------------------------------------------------------

  predicate NotKey(w: string) { !IsKey(w) }

  predicate NotPipe(w: string) { w != "|" }

  /** `zot_parse_cite_string`, up to the construction of the citation record. */
  function Parse(text: string): (r: Result<ParsedCite, ParseError>)
    ensures r.Success? ==> r.value.key != "" && AllKeyChars(r.value.key)
  {
    var words := Tokens(text);
    var rawKeys := Filter(IsKey, words);
    if |rawKeys| == 0 then Failure(NoKeyFound(text))
    else if |rawKeys| > 1 then Failure(TooManyKeys(text))
    else
      var m := MatchKey(rawKeys[0]).value;
      var afterCite := Tail(DropWhile(NotKey, words));
      Success(ParsedCite(
        m.key,
        m.suppressAuthor,
        JoinSpace(TakeWhile(NotKey, words)),
        JoinSpace(TakeWhile(NotPipe, afterCite)),
        JoinSpace(Tail(DropWhile(NotPipe, afterCite)))))
  }

  /** The two errors: no key word at all, or more than one. */
  lemma {:induction false} ParseFailsIff(text: string)
    ensures Parse(text) == Failure(NoKeyFound(text)) <==> CountIf(IsKey, Tokens(text)) == 0
    ensures Parse(text) == Failure(TooManyKeys(text)) <==> CountIf(IsKey, Tokens(text)) >= 2
    ensures Parse(text).Success? <==> CountIf(IsKey, Tokens(text)) == 1
  {
  }

  /** Empty or all-space text reports that no key was found. */
  lemma {:induction false} BlankTextHasNoKey(text: string)
    requires forall i :: 0 <= i < |text| ==> text[i] == ' '
    ensures Parse(text) == Failure(NoKeyFound(text))
  {
    BlankHasNoTokens(text);
  }

  /** Parsing once the words and the single key word are known. */
  lemma {:induction false} ParseWithOneKey(text: string, keyWord: string)
    requires IsKey(keyWord) && Filter(IsKey, Tokens(text)) == [keyWord]
    ensures Parse(text) == Success(ParsedCite(
              MatchKey(keyWord).value.key, MatchKey(keyWord).value.suppressAuthor,
              JoinSpace(TakeWhile(NotKey, Tokens(text))),
              JoinSpace(TakeWhile(NotPipe, Tail(DropWhile(NotKey, Tokens(text))))),
              JoinSpace(Tail(DropWhile(NotPipe, Tail(DropWhile(NotKey, Tokens(text))))))))
  {
  }

  /** The words after the key, cut at the first `|` word. */
  lemma {:induction false} SplitAtPipe(locator: seq<string>, suffix: seq<string>, hasPipe: bool)
    requires forall i :: 0 <= i < |locator| ==> locator[i] != "|"
    requires !hasPipe ==> suffix == []
    ensures var after := locator + (if hasPipe then ["|"] + suffix else []);
            TakeWhile(NotPipe, after) == locator && Tail(DropWhile(NotPipe, after)) == suffix
  {
    assert forall i :: 0 <= i < |locator| ==> NotPipe(locator[i]);
    if hasPipe {
      SplitAtFirstPipe(locator, suffix);
      assert locator + (["|"] + suffix) == locator + ["|"] + suffix;
    } else {
      TakeDropAll(NotPipe, locator);
      assert locator + [] == locator;
    }
  }

  lemma SplitAtFirstPipe(locator: seq<string>, suffix: seq<string>)
    requires forall i :: 0 <= i < |locator| ==> NotPipe(locator[i])
    ensures TakeWhile(NotPipe, locator + ["|"] + suffix) == locator
    ensures Tail(DropWhile(NotPipe, locator + ["|"] + suffix)) == suffix
  {
    TakeDropAtFirstFailure(NotPipe, locator, "|", suffix);
  }

  /** No word of the locator, the pipe or the suffix is a key. */
  lemma AfterKeyHasNoKey(locator: seq<string>, suffix: seq<string>, hasPipe: bool)
    requires forall i :: 0 <= i < |locator| ==> !IsKey(locator[i])
    requires forall i :: 0 <= i < |suffix| ==> !IsKey(suffix[i])
    ensures var after := locator + (if hasPipe then ["|"] + suffix else []);
            forall i :: 0 <= i < |after| ==> !IsKey(after[i])
  {
    assert !IsKey("|");
  }

  /** With one key word among non-key words, it is the only key found. */
  lemma {:induction false} OnlyKeyWord(before: seq<string>, keyWord: string, after: seq<string>)
    requires IsKey(keyWord)
    requires forall i :: 0 <= i < |before| ==> !IsKey(before[i])
    requires forall i :: 0 <= i < |after| ==> !IsKey(after[i])
    ensures Filter(IsKey, before + [keyWord] + after) == [keyWord]
  {
    assert Filter(IsKey, after) == [];
    assert Filter(IsKey, before) == [];
    FilterAppend(IsKey, before + [keyWord], after);
    FilterAppend(IsKey, before, [keyWord]);
  }

  /** What a successful parse returns: cut the words at the one key word;
      the words before it, joined by single spaces, are the prefix; the
      words after it are cut at the first `|` word into the locator and the
      suffix (later `|` words are kept as text), and with no `|` the suffix
      is empty. */
  lemma {:induction false} ParseOfDecomposition(
    text: string, before: seq<string>, keyWord: string,
    locator: seq<string>, suffix: seq<string>, hasPipe: bool)
    requires Tokens(text) == before + [keyWord] + locator + (if hasPipe then ["|"] + suffix else [])
    requires IsKey(keyWord)
    requires forall i :: 0 <= i < |before| ==> !IsKey(before[i])
    requires forall i :: 0 <= i < |locator| ==> !IsKey(locator[i]) && locator[i] != "|"
    requires forall i :: 0 <= i < |suffix| ==> !IsKey(suffix[i])
    requires !hasPipe ==> suffix == []
    ensures Parse(text) == Success(ParsedCite(
              MatchKey(keyWord).value.key, MatchKey(keyWord).value.suppressAuthor,
              JoinSpace(before), JoinSpace(locator), JoinSpace(suffix)))
  {
    var after := locator + (if hasPipe then ["|"] + suffix else []);
    assert Tokens(text) == before + [keyWord] + after;
    AfterKeyHasNoKey(locator, suffix, hasPipe);
    OnlyKeyWord(before, keyWord, after);
    ParseWithOneKey(text, keyWord);
    TakeDropAtFirstFailure(NotKey, before, keyWord, after);
    SplitAtPipe(locator, suffix, hasPipe);
  }

  /** A word followed by a separator (or by nothing) is one token. */
  lemma {:induction false} LexWord(w: string, t: string)
    requires w != "" && SeparatorFree(w)
    requires t == [] || IsSeparator(t[0])
    ensures Lex(w + t) == [w] + Lex(t)
  {
    WordLengthOf(w, t);
    assert (w + t)[..|w|] == w && (w + t)[|w|..] == t;
  }

  lemma {:induction false} WordLengthOf(w: string, t: string)
    requires SeparatorFree(w)
    requires t == [] || IsSeparator(t[0])
    ensures WordLength(w + t) == |w|
    decreases |w|
  {
    if w != [] {
      assert (w + t)[1..] == w[1..] + t;
      WordLengthOf(w[1..], t);
    } else {
      assert w + t == t;
    }
  }

  // Worked examples: the two of the parser's own documentation
  // (`see @Doe2008`, `also c.f. @Doe2010`), one with a suppressed author,
  // a locator and a suffix, and the two failures.

  /** A comma right after the key is matched by `,?` and discarded. */
  lemma KeyWithTrailingComma(w: string, suppressAuthor: bool, key: string)
    requires key != "" && AllKeyChars(key)
    requires w == (if suppressAuthor then "-@" else "@") + key + ","
    ensures MatchKey(w) == Some(KeyMatch(suppressAuthor, key))
  {
    MatchKeyIff(w, suppressAuthor, key, ",");
  }

  /** One step of the reference tokeniser at position `i` of `s`: a word
      running from `i` to `j`. */
  lemma {:induction false} LexAtWord(s: string, i: nat, j: nat)
    requires i < j <= |s| && SeparatorFree(s[i..j])
    requires j == |s| || IsSeparator(s[j])
    ensures Lex(s[i..]) == [s[i..j]] + Lex(s[j..])
  {
    assert s[i..] == s[i..j] + s[j..];
    LexWord(s[i..j], s[j..]);
    assert s[i..][j - i..] == s[j..];
  }

  /** One step of the reference tokeniser at position `i`: a separator. */
  lemma {:induction false} LexAtSeparator(s: string, i: nat)
    requires i < |s| && IsSeparator(s[i])
    ensures Lex(s[i..]) == (if s[i] == '|' then ["|"] else []) + Lex(s[i + 1..])
  {
    assert s[i..][1..] == s[i + 1..];
  }

  lemma {:induction false} LexOfSee(s: string)
    requires s == "see @Doe2008"
    ensures Lex(s) == [s[0..3], s[4..12]]
  {
    LexOfSee1(s);
    LexOfSee2(s);
  }

  lemma {:induction false} LexOfSee1(s: string)
    requires s == "see @Doe2008"
    ensures Lex(s) == [s[0..3]] + Lex(s[4..])
  {
    assert s[0..] == s;
    LexAtWord(s, 0, 3);
    LexAtSeparator(s, 3);
  }

  lemma {:induction false} LexOfSee2(s: string)
    requires s == "see @Doe2008"
    ensures Lex(s[4..]) == [s[4..12]]
  {
    LexAtWord(s, 4, 12);
    assert s[12..] == [];
  }

  lemma {:induction false} TokensOfSee(s: string)
    requires s == "see @Doe2008"
    ensures Tokens(s) == ["see", "@Doe2008"]
  {
    LexOfSee(s);
    TokensAreLex(s);
    assert s[0..3] == "see";
    assert s[4..12] == "@Doe2008";
  }

  lemma {:induction false} LexOfSuppressWithPipe(s: string)
    requires s == "-@Doe2010, p.5 | cited favorably"
    ensures Lex(s) == [s[0..10], s[11..14], "|", s[17..22], s[23..32]]
  {
    LexOfSuppressWithPipe1(s);
    LexOfSuppressWithPipe2(s);
    LexOfSuppressWithPipe3(s);
    LexOfSuppressWithPipe4(s);
    LexOfSuppressWithPipe5(s);
    Chain5(Lex(s), Lex(s[11..]), Lex(s[15..]), Lex(s[17..]), Lex(s[23..]),
           s[0..10], s[11..14], "|", s[17..22], s[23..32]);
  }

  lemma {:induction false} LexOfSuppressWithPipe1(s: string)
    requires s == "-@Doe2010, p.5 | cited favorably"
    ensures Lex(s) == [s[0..10]] + Lex(s[11..])
  {
    FirstWordOfSuppressWithPipe(s);
    assert s[0..] == s;
    LexAtWord(s, 0, 10);
    LexAtSeparator(s, 10);
  }

  lemma FirstWordOfSuppressWithPipe(s: string)
    requires s == "-@Doe2010, p.5 | cited favorably"
    ensures 10 < |s| && SeparatorFree(s[0..10]) && s[10] == ' '
  {
  }

  lemma {:induction false} LexOfSuppressWithPipe2(s: string)
    requires s == "-@Doe2010, p.5 | cited favorably"
    ensures Lex(s[11..]) == [s[11..14]] + Lex(s[15..])
  {
    LexAtWord(s, 11, 14);
    LexAtSeparator(s, 14);
  }

  lemma {:induction false} LexOfSuppressWithPipe3(s: string)
    requires s == "-@Doe2010, p.5 | cited favorably"
    ensures Lex(s[15..]) == ["|"] + Lex(s[17..])
  {
    LexAtSeparator(s, 15);
    LexAtSeparator(s, 16);
  }

  lemma {:induction false} LexOfSuppressWithPipe4(s: string)
    requires s == "-@Doe2010, p.5 | cited favorably"
    ensures Lex(s[17..]) == [s[17..22]] + Lex(s[23..])
  {
    LexAtWord(s, 17, 22);
    LexAtSeparator(s, 22);
  }

  lemma {:induction false} LexOfSuppressWithPipe5(s: string)
    requires s == "-@Doe2010, p.5 | cited favorably"
    ensures Lex(s[23..]) == [s[23..32]]
  {
    LexAtWord(s, 23, 32);
    assert s[32..] == [];
  }

  /** Five one-step unfoldings of a list, put together. */
  lemma Chain5<T>(l0: seq<T>, l1: seq<T>, l2: seq<T>, l3: seq<T>, l4: seq<T>, a: T, b: T, c: T, d: T, e: T)
    requires l0 == [a] + l1 && l1 == [b] + l2 && l2 == [c] + l3 && l3 == [d] + l4 && l4 == [e]
    ensures l0 == [a, b, c, d, e]
  {
  }

  lemma {:induction false} TokensOfSuppressWithPipe(s: string)
    requires s == "-@Doe2010, p.5 | cited favorably"
    ensures Tokens(s) == ["-@Doe2010,", "p.5", "|", "cited", "favorably"]
  {
    LexOfSuppressWithPipe(s);
    TokensAreLex(s);
    WordsOfSuppressWithPipe(s);
  }

  lemma WordsOfSuppressWithPipe(s: string)
    requires s == "-@Doe2010, p.5 | cited favorably"
    ensures s[0..10] == "-@Doe2010," && s[11..14] == "p.5" && s[17..22] == "cited" && s[23..32] == "favorably"
  {
    assert s[0..10] == "-@Doe2010,";
    assert s[11..14] == "p.5";
    assert s[17..22] == "cited";
    assert s[23..32] == "favorably";
  }

  lemma {:induction false} LexOfTwoKeys(s: string)
    requires s == "@A @B"
    ensures Lex(s) == [s[0..2], s[3..5]]
  {
    assert s[0..] == s;
    LexAtWord(s, 0, 2);
    LexAtSeparator(s, 2);
    LexAtWord(s, 3, 5);
    assert s[5..] == [];
  }

  lemma {:induction false} TokensOfTwoKeys(s: string)
    requires s == "@A @B"
    ensures Tokens(s) == ["@A", "@B"]
  {
    LexOfTwoKeys(s);
    TokensAreLex(s);
    assert s[0..2] == "@A";
    assert s[3..5] == "@B";
  }

  lemma {:induction false} LexOfNoKey(s: string)
    requires s == "just text"
    ensures Lex(s) == [s[0..4], s[5..9]]
  {
    assert s[0..] == s;
    LexAtWord(s, 0, 4);
    LexAtSeparator(s, 4);
    LexAtWord(s, 5, 9);
    assert s[9..] == [];
  }

  lemma {:induction false} TokensOfNoKey(s: string)
    requires s == "just text"
    ensures Tokens(s) == ["just", "text"]
  {
    LexOfNoKey(s);
    TokensAreLex(s);
    assert s[0..4] == "just";
    assert s[5..9] == "text";
  }

  /** Prefix words, then the key word. */
  lemma {:induction false} ParseWordsThenKey(s: string, before: seq<string>, keyWord: string,
                          key: string, suppressAuthor: bool, joined: string)
    requires Tokens(s) == before + [keyWord] + [] + []
    requires MatchKey(keyWord) == Some(KeyMatch(suppressAuthor, key))
    requires forall i :: 0 <= i < |before| ==> !IsKey(before[i])
    requires JoinSpace(before) == joined
    ensures Parse(s) == Success(ParsedCite(key, suppressAuthor, joined, "", ""))
  {
    ParseOfDecomposition(s, before, keyWord, [], [], false);
  }

  /** The key word, one locator word, a pipe, then the suffix words. */
  lemma {:induction false} ParseKeyLocatorSuffix(s: string, keyWord: string, loc: string, suffix: seq<string>,
                              key: string, suppressAuthor: bool, joined: string)
    requires Tokens(s) == [] + [keyWord] + [loc] + (["|"] + suffix)
    requires MatchKey(keyWord) == Some(KeyMatch(suppressAuthor, key)) && !IsKey(loc) && loc != "|"
    requires forall i :: 0 <= i < |suffix| ==> !IsKey(suffix[i])
    requires JoinSpace(suffix) == joined
    ensures Parse(s) == Success(ParsedCite(key, suppressAuthor, "", loc, joined))
  {
    ParseOfDecomposition(s, [], keyWord, [loc], suffix, true);
  }

  // The next three regroup a literal list of words into the shape that
  // `ParseWordsThenKey` and `ParseKeyLocatorSuffix` take.

  lemma TwoWords<T>(a: T, b: T)
    ensures [a, b] == [a] + [b] + [] + []
  {
  }

  lemma ThreeWords<T>(a: T, b: T, c: T)
    ensures [a, b, c] == [a, b] + [c] + [] + []
  {
  }

  lemma FiveWords<T>(a: T, b: T, c: T, d: T, e: T)
    ensures [a, b, c, d, e] == [] + [a] + [b] + ([c] + [d, e])
  {
  }

  lemma KeysOfSee()
    ensures MatchKey("@Doe2008") == Some(KeyMatch(false, "Doe2008"))
    ensures !IsKey("see")
  {
    assert "@Doe2008"[1..] == "Doe2008" + "";
    KeyRunOf("Doe2008", "");
  }

  lemma ExampleSee(s: string)
    requires s == "see @Doe2008"
    ensures Parse(s) == Success(ParsedCite("Doe2008", false, "see", "", ""))
  {
    TokensOfSee(s);
    TwoWords("see", "@Doe2008");
    KeysOfSee();
    ParseWordsThenKey(s, ["see"], "@Doe2008", "Doe2008", false, "see");
  }

  lemma {:induction false} LexOfAlsoCf(s: string)
    requires s == "also c.f. @Doe2010"
    ensures Lex(s) == [s[0..4], s[5..9], s[10..18]]
  {
    LexOfAlsoCf1(s);
    LexOfAlsoCf2(s);
    LexOfAlsoCf3(s);
  }

  lemma {:induction false} LexOfAlsoCf1(s: string)
    requires s == "also c.f. @Doe2010"
    ensures Lex(s) == [s[0..4]] + Lex(s[5..])
  {
    assert s[0..] == s;
    LexAtWord(s, 0, 4);
    LexAtSeparator(s, 4);
  }

  lemma {:induction false} LexOfAlsoCf2(s: string)
    requires s == "also c.f. @Doe2010"
    ensures Lex(s[5..]) == [s[5..9]] + Lex(s[10..])
  {
    LexAtWord(s, 5, 9);
    LexAtSeparator(s, 9);
  }

  lemma {:induction false} LexOfAlsoCf3(s: string)
    requires s == "also c.f. @Doe2010"
    ensures Lex(s[10..]) == [s[10..18]]
  {
    LexAtWord(s, 10, 18);
    assert s[18..] == [];
  }

  lemma {:induction false} TokensOfAlsoCf(s: string)
    requires s == "also c.f. @Doe2010"
    ensures Tokens(s) == ["also", "c.f.", "@Doe2010"]
  {
    LexOfAlsoCf(s);
    TokensAreLex(s);
    WordsOfAlsoCf(s);
  }

  lemma WordsOfAlsoCf(s: string)
    requires s == "also c.f. @Doe2010"
    ensures s[0..4] == "also" && s[5..9] == "c.f." && s[10..18] == "@Doe2010"
  {
    assert s[0..4] == "also";
    assert s[5..9] == "c.f.";
    assert s[10..18] == "@Doe2010";
  }

  lemma KeysOfAlsoCf()
    ensures MatchKey("@Doe2010") == Some(KeyMatch(false, "Doe2010"))
    ensures !IsKey("also") && !IsKey("c.f.")
  {
    assert "@Doe2010"[1..] == "Doe2010" + "";
    KeyRunOf("Doe2010", "");
  }

  /** Several prefix words are joined by single spaces. */
  lemma ExampleAlsoCf(s: string)
    requires s == "also c.f. @Doe2010"
    ensures Parse(s) == Success(ParsedCite("Doe2010", false, "also c.f.", "", ""))
  {
    TokensOfAlsoCf(s);
    ThreeWords("also", "c.f.", "@Doe2010");
    ParseOfAlsoCfWords(s);
  }

  lemma ParseOfAlsoCfWords(s: string)
    requires Tokens(s) == ["also", "c.f."] + ["@Doe2010"] + [] + []
    ensures Parse(s) == Success(ParsedCite("Doe2010", false, "also c.f.", "", ""))
  {
    KeysOfAlsoCf();
    PrefixOfAlsoCf();
    ParseTwoWordsThenKey(s, "also", "c.f.", "@Doe2010", "Doe2010", false, "also c.f.");
  }

  lemma PrefixOfAlsoCf()
    ensures "also" + " " + "c.f." == "also c.f."
  {
  }

  /** Two prefix words, then the key word: the prefix is the two words
      joined by one space. */
  lemma {:induction false} ParseTwoWordsThenKey(s: string, a: string, b: string, keyWord: string,
                                                key: string, suppressAuthor: bool, joined: string)
    requires Tokens(s) == [a, b] + [keyWord] + [] + []
    requires MatchKey(keyWord) == Some(KeyMatch(suppressAuthor, key)) && !IsKey(a) && !IsKey(b)
    requires a + " " + b == joined
    ensures Parse(s) == Success(ParsedCite(key, suppressAuthor, joined, "", ""))
  {
    JoinSpaceCons(a, [b]);
    ParseWordsThenKey(s, [a, b], keyWord, key, suppressAuthor, joined);
  }

  /** Which words of the example match the key pattern. */
  lemma KeysOfSuppressWithPipe()
    ensures MatchKey("-@Doe2010,") == Some(KeyMatch(true, "Doe2010"))
    ensures !IsKey("p.5") && !IsKey("cited") && !IsKey("favorably")
  {
    KeyWithTrailingComma("-@Doe2010,", true, "Doe2010");
  }

  lemma JoinOfSuffix()
    ensures JoinSpace(["cited", "favorably"]) == "cited favorably"
  {
    JoinSpaceCons("cited", ["favorably"]);
  }

  lemma ExampleSuppressWithPipe(s: string)
    requires s == "-@Doe2010, p.5 | cited favorably"
    ensures Parse(s) == Success(ParsedCite("Doe2010", true, "", "p.5", "cited favorably"))
  {
    TokensOfSuppressWithPipe(s);
    FiveWords("-@Doe2010,", "p.5", "|", "cited", "favorably");
    ParseOfSuppressWithPipeWords(s);
  }

  lemma ParseOfSuppressWithPipeWords(s: string)
    requires Tokens(s) == [] + ["-@Doe2010,"] + ["p.5"] + (["|"] + ["cited", "favorably"])
    ensures Parse(s) == Success(ParsedCite("Doe2010", true, "", "p.5", "cited favorably"))
  {
    KeysOfSuppressWithPipe();
    JoinOfSuffix();
    ParseKeyLocatorSuffix(s, "-@Doe2010,", "p.5", ["cited", "favorably"], "Doe2010", true, "cited favorably");
  }

  lemma ExampleTwoKeys(s: string)
    requires s == "@A @B"
    ensures Parse(s) == Failure(TooManyKeys(s))
  {
    TokensOfTwoKeys(s);
    assert IsKey("@A") && IsKey("@B");
  }

  lemma ExampleNoKey(s: string)
    requires s == "just text"
    ensures Parse(s) == Failure(NoKeyFound(s))
  {
    TokensOfNoKey(s);
    assert !IsKey("just") && !IsKey("text");
  }
}
