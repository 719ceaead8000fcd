/**
 What the text of a formatted line says: which words are references and where their links point,
 which parts become hashtags, and that nothing else changes.
 */
module LineText {
  import opened Wrappers
  import opened Strings
  import opened Formatting
  import opened MarkupNesting

  // ---------------------------------------------------------------- numbers

  lemma {:induction false} LeadingZero(s: string)
    requires IsDigits(s)
    ensures IsDigits("0" + s) && DigitsValue("0" + s) == DigitsValue(s)
  {
    var t := "0" + s;
    if |s| == 0 {
      assert t[..0] == "";
    } else {
      LeadingZero(s[..|s| - 1]);
      assert t[..|t| - 1] == "0" + s[..|s| - 1];
    }
  }

  /**
   `Atoi` reads digits with or without a plus sign and leading zeros alike, and nothing that has
   no digits or anything but digits behind a sign.
   */
  lemma AtoiForms(s: string)
    requires s == "" || (s[0] != '-' && s[0] != '+')
    ensures IsDigits(s) && s != "" ==> Atoi("+" + s) == Atoi(s) && Atoi("0" + s) == Atoi(s)
    ensures !IsDigits(s) || s == "" ==> Atoi(s) == None && Atoi("+" + s) == None && Atoi("-" + s) == None
  {
    assert ("+" + s)[1..] == s && ("-" + s)[1..] == s;
    if IsDigits(s) && s != "" {
      LeadingZero(s);
      AtoiDigits(s);
      AtoiDigits("0" + s);
    }
  }

  lemma TenDigits()
    ensures Decimal(1234567890) == "1234567890" && Atoi("1234567890") == Some(1234567890)
  {
    assert Decimal(12345) == "12345";
    assert Decimal(123456789) == "123456789";
    AtoiDecimal(1234567890);
  }

  // ---------------------------------------------------------------- references

  /**
   The link of a reference: the base, the page, whose number reads back as the parent, and behind
   the `#` the number as it was written.
   */
  lemma HrefReads(env: Env, parent: int, dir: string, number: string)
    requires -0x8000_0000_0000_0000 <= parent < 0x8000_0000_0000_0000
    ensures exists page :: Atoi(page) == Some(parent)
              && Href(env, parent, dir, number) == env.webRoot + dir + "/res/" + page + ".html#" + number
  {
    AtoiDecimal(parent);
  }

  /** Looking a reference up is the only thing that can fail in a word. */
  lemma WordFailsIff(env: Env, word: string, first: bool)
    ensures WordTokens(env, word, first).Failure? <==>
              && |word| >= 8 && word[..8] == "&gt;&gt;"
              && (forall i :: i >= 1 ==> !IsAt(word, "&gt;&gt;", i))
              && Atoi(word[8..]).Some? && env.lookup(Atoi(word[8..]).value).QueryError?
  {
    OnlyAtStartIs(word);
  }

  lemma OnlyAtStartIs(word: string)
    ensures OnlyAtStart(word, "&gt;&gt;") <==>
              && |word| >= 8 && word[..8] == "&gt;&gt;"
              && forall i :: i >= 1 ==> !IsAt(word, "&gt;&gt;", i)
  {
  }

  /**
   A line is greentext when it starts with one quote mark, or with two that are not the last two in
   its first word.
   */
  lemma GreentextIff(words: seq<string>)
    requires |words| > 0
    ensures IsGreentext(words) <==>
              && |words[0]| >= 4 && words[0][..4] == "&gt;"
              && !(&& |words[0]| >= 8 && words[0][..8] == "&gt;&gt;"
                   && forall i :: i >= 1 ==> !IsAt(words[0], "&gt;&gt;", i))
  {
    OnlyAtStartIs(words[0]);
  }

  // ---------------------------------------------------------------- the words stay

  /** What is read on the page: characters, and the texts of links. */
  function Visible(tokens: seq<Token>): string {
    if |tokens| == 0 then ""
    else (match tokens[0]
          case Char(c) => [c]
          case Backlink(_, text) => text
          case DeadLink(text) => text
          case _ => "")
         + Visible(tokens[1..])
  }

  lemma {:induction false} VisibleConcat(a: seq<Token>, b: seq<Token>)
    ensures Visible(a + b) == Visible(a) + Visible(b)
  {
    if |a| == 0 {
      assert a + b == b;
    } else {
      assert (a + b)[0] == a[0] && (a + b)[1..] == a[1..] + b;
      VisibleConcat(a[1..], b);
    }
  }

  lemma VisibleOne(t: Token)
    ensures Visible([t]) == match t
                            case Char(c) => [c]
                            case Backlink(_, text) => text
                            case DeadLink(text) => text
                            case _ => ""
  {
    assert [t][1..] == [];
  }

  lemma {:induction false} VisibleChars(s: string)
    ensures Visible(Chars(s)) == s
  {
    if |s| > 0 {
      VisibleChars(s[1..]);
      assert Chars(s)[1..] == Chars(s[1..]);
    }
  }

  lemma VisibleWord(env: Env, word: string, first: bool)
    requires WordTokens(env, word, first).Success?
    ensures Visible(WordTokens(env, word, first).value) == word
  {
    var tokens := WordTokens(env, word, first).value;
    VisibleChars(word);
    VisibleConcat([GreenOpen], Chars(word));
    VisibleOne(GreenOpen);
    if tokens != Chars(word) {
      VisibleOne(tokens[0]);
    }
  }

  lemma {:induction false} VisibleJoin(env: Env, words: seq<string>)
    requires JoinTokens(env, words).Success?
    ensures Visible(JoinTokens(env, words).value) == Join(words, " ")
  {
    if |words| > 0 {
      var last := |words| - 1;
      VisibleJoin(env, words[..last]);
      VisibleWord(env, words[last], last == 0);
      var front, word := JoinTokens(env, words[..last]).value, WordTokens(env, words[last], last == 0).value;
      if last == 0 {
        assert front + [] + word == word;
      } else {
        VisibleConcat(front + [Char(' ')], word);
        VisibleConcat(front, [Char(' ')]);
        VisibleOne(Char(' '));
      }
    }
  }

  /** Before its hashtags are looked for, a line reads as its words joined with spaces. */
  lemma LineReadsAsWords(env: Env, words: seq<string>)
    requires LineTokens(env, words).Success?
    ensures Visible(LineTokens(env, words).value) == Join(words, " ")
  {
    VisibleJoin(env, words);
    var line := JoinTokens(env, words).value;
    VisibleConcat(line, [GreenClose]);
    VisibleOne(GreenClose);
    assert line + [] == line;
  }

  // ---------------------------------------------------------------- hashtags

  /** At `j` stands `[#`, at least one character other than `]`, and `]` at `e`. */
  predicate TagAt(s: string, j: int, e: int) {
    && 0 <= j && j + 2 < e < |s| && s[j] == '[' && s[j + 1] == '#' && s[e] == ']'
    && forall k :: j + 2 <= k < e ==> s[k] != ']'
  }

  lemma MatchIsTag(s: string)
    ensures MatchesAtFront(s) <==> exists e :: TagAt(s, 0, e)
    ensures MatchesAtFront(s) ==> TagAt(s, 0, FirstClose(s, 3))
  {
    if MatchesAtFront(s) {
      assert TagAt(s, 0, FirstClose(s, 3));
    }
    if e :| TagAt(s, 0, e) {
      assert s[2] != ']' && 3 <= e < |s| && s[e] == ']';
    }
  }

  lemma TagInRest(s: string, j: nat, e: int)
    requires |s| > 0 && j > 0
    ensures TagAt(s, j, e) <==> TagAt(s[1..], j - 1, e - 1)
  {
    if TagAt(s[1..], j - 1, e - 1) {
      assert forall k :: j + 2 <= k < e ==> s[k] == s[1..][k - 1];
    }
  }

  /** The tag `#nsfw`, in upper or lower case letters. */
  predicate NsfwTag(tag: string) {
    && |tag| == 5 && tag[0] == '#' && tag[1] in {'n', 'N'} && tag[2] in {'s', 'S'}
    && tag[3] in {'f', 'F'} && tag[4] in {'w', 'W'}
  }

  lemma NsfwIff(tag: string)
    ensures IsNsfw(tag) <==> NsfwTag(tag)
  {
    if |tag| == 5 {
      assert "#nsfw"[0] == '#' && "#nsfw"[1] == 'n' && "#nsfw"[2] == 's' && "#nsfw"[3] == 'f' && "#nsfw"[4] == 'w';
    }
  }

  /** The text before a tag, and the tag without its brackets. */
  datatype Part = Part(before: string, tag: string)

  /** A text in parts and what is behind the last tag. */
  function Source(parts: seq<Part>, rest: string): string {
    if |parts| == 0 then rest else parts[0].before + "[" + parts[0].tag + "]" + Source(parts[1..], rest)
  }

  /** The same with a span around each tag in the place of its brackets. */
  function Marked(m: Markup, parts: seq<Part>, rest: string): string {
    if |parts| == 0 then rest
    else parts[0].before + (if NsfwTag(parts[0].tag) then m.nsfw else m.hashtag) + parts[0].tag + m.spanClose
         + Marked(m, parts[1..], rest)
  }

  /** Each tag is the first one from the end of the tag before it, and there is none behind the last. */
  ghost predicate FirstTags(parts: seq<Part>, rest: string) {
    if |parts| == 0 then forall j, e :: !TagAt(rest, j, e)
    else
      && TagAt("[" + parts[0].tag + "]", 0, |parts[0].tag| + 1)
      && (forall j, e :: j < |parts[0].before| ==> !TagAt(Source(parts, rest), j, e))
      && FirstTags(parts[1..], rest)
  }

  function Extend(c: char, parts: seq<Part>, rest: string): (seq<Part>, string) {
    if |parts| == 0 then (parts, [c] + rest)
    else ([Part([c] + parts[0].before, parts[0].tag)] + parts[1..], rest)
  }

  function PartsOf(s: string): (seq<Part>, string) {
    if |s| == 0 then ([], "")
    else if MatchesAtFront(s) then
      var e := FirstClose(s, 3);
      var (parts, rest) := PartsOf(s[e + 1..]);
      ([Part("", s[1..e])] + parts, rest)
    else
      var (parts, rest) := PartsOf(s[1..]);
      Extend(s[0], parts, rest)
  }

  lemma ExtendSource(c: char, parts: seq<Part>, rest: string)
    ensures Source(Extend(c, parts, rest).0, Extend(c, parts, rest).1) == [c] + Source(parts, rest)
  {
    if |parts| > 0 {
      var extended := Extend(c, parts, rest).0;
      assert extended[1..] == parts[1..];
      Prefixed(c, parts[0].before, "[" + parts[0].tag + "]" + Source(parts[1..], rest));
      Regrouped(parts[0].before, "[", parts[0].tag, "]", Source(parts[1..], rest));
      Regrouped([c] + parts[0].before, "[", parts[0].tag, "]", Source(parts[1..], rest));
    }
  }

  lemma ExtendMarked(m: Markup, c: char, parts: seq<Part>, rest: string)
    ensures Marked(m, Extend(c, parts, rest).0, Extend(c, parts, rest).1) == [c] + Marked(m, parts, rest)
  {
    if |parts| > 0 {
      var extended := Extend(c, parts, rest).0;
      assert extended[1..] == parts[1..];
      var open := if NsfwTag(parts[0].tag) then m.nsfw else m.hashtag;
      var tail := Marked(m, parts[1..], rest);
      Prefixed(c, parts[0].before, open + parts[0].tag + m.spanClose + tail);
      Regrouped(parts[0].before, open, parts[0].tag, m.spanClose, tail);
      Regrouped([c] + parts[0].before, open, parts[0].tag, m.spanClose, tail);
    }
  }

  lemma Prefixed(c: char, a: string, b: string)
    ensures [c] + a + b == [c] + (a + b)
  {
  }

  lemma Regrouped(a: string, b: string, c: string, d: string, e: string)
    ensures a + b + c + d + e == a + (b + c + d + e)
  {
  }

  lemma {:induction false} PartsSource(s: string)
    ensures Source(PartsOf(s).0, PartsOf(s).1) == s
  {
    if |s| > 0 {
      if MatchesAtFront(s) {
        var e := FirstClose(s, 3);
        var (parts, rest) := PartsOf(s[e + 1..]);
        PartsSource(s[e + 1..]);
        assert ([Part("", s[1..e])] + parts)[1..] == parts;
        Brackets(s, e);
      } else {
        var (parts, rest) := PartsOf(s[1..]);
        PartsSource(s[1..]);
        ExtendSource(s[0], parts, rest);
        assert s == [s[0]] + s[1..];
      }
    }
  }

  lemma {:induction false} PartsFirst(s: string)
    ensures FirstTags(PartsOf(s).0, PartsOf(s).1)
  {
    PartsSource(s);
    if |s| > 0 {
      if MatchesAtFront(s) {
        var e := FirstClose(s, 3);
        var (parts, rest) := PartsOf(s[e + 1..]);
        PartsFirst(s[e + 1..]);
        assert ([Part("", s[1..e])] + parts)[1..] == parts;
        TagAlone(s, e);
      } else {
        var (parts, rest) := PartsOf(s[1..]);
        PartsFirst(s[1..]);
        PartsSource(s[1..]);
        NoTagEarlier(s, parts, rest);
      }
    }
  }

  lemma Brackets(s: string, e: nat)
    requires 0 < e < |s| && s[0] == '[' && s[e] == ']'
    ensures "" + "[" + s[1..e] + "]" + s[e + 1..] == s
  {
    assert "[" + s[1..e] + "]" == s[..e + 1];
  }

  lemma TagAlone(s: string, e: nat)
    requires TagAt(s, 0, e)
    ensures TagAt("[" + s[1..e] + "]", 0, |s[1..e]| + 1)
  {
    assert "[" + s[1..e] + "]" == s[..e + 1];
  }

  lemma NoTagEarlier(s: string, parts: seq<Part>, rest: string)
    requires |s| > 0 && !MatchesAtFront(s) && FirstTags(parts, rest) && Source(parts, rest) == s[1..]
    ensures FirstTags(Extend(s[0], parts, rest).0, Extend(s[0], parts, rest).1)
  {
    var (parts', rest') := Extend(s[0], parts, rest);
    ExtendSource(s[0], parts, rest);
    assert Source(parts', rest') == s;
    forall j, e | TagAt(s, j, e) ensures j > 0 && TagAt(s[1..], j - 1, e - 1) {
      MatchIsTag(s);
      if j > 0 {
        TagInRest(s, j, e);
      }
    }
    if |parts| > 0 {
      assert parts'[1..] == parts[1..] && parts'[0].tag == parts[0].tag;
    }
  }

  ghost predicate HasNsfw(parts: seq<Part>) {
    exists i :: 0 <= i < |parts| && NsfwTag(parts[i].tag)
  }

  lemma {:induction false} PartsMarked(m: Markup, worksafe: bool, s: string)
    ensures var (parts, rest) := PartsOf(s);
            ReplaceTags(m, worksafe, s) ==
              if worksafe && HasNsfw(parts) then Failure(WorksafeBoard) else Success(Marked(m, parts, rest))
  {
    if |s| > 0 {
      if MatchesAtFront(s) {
        var e := FirstClose(s, 3);
        var (parts, rest) := PartsOf(s[e + 1..]);
        PartsMarked(m, worksafe, s[e + 1..]);
        NsfwIff(s[1..e]);
        var all := [Part("", s[1..e])] + parts;
        assert all[1..] == parts;
        FirstOrRest(all);
        assert "" + SpanOpen(m, IsNsfw(s[1..e])) == SpanOpen(m, IsNsfw(s[1..e]));
        assert PartsOf(s) == (all, rest);
      } else {
        var (parts, rest) := PartsOf(s[1..]);
        PartsMarked(m, worksafe, s[1..]);
        ExtendMarked(m, s[0], parts, rest);
        SameTags(s[0], parts, rest);
      }
    }
  }

  lemma FirstOrRest(parts: seq<Part>)
    requires |parts| > 0
    ensures HasNsfw(parts) <==> NsfwTag(parts[0].tag) || HasNsfw(parts[1..])
  {
    if HasNsfw(parts[1..]) {
      var i :| 0 <= i < |parts| - 1 && NsfwTag(parts[1..][i].tag);
      assert parts[i + 1] == parts[1..][i];
    }
    if i :| 0 <= i < |parts| && NsfwTag(parts[i].tag) {
      assert i > 0 ==> parts[1..][i - 1] == parts[i];
    }
  }

  lemma SameTags(c: char, parts: seq<Part>, rest: string)
    ensures HasNsfw(Extend(c, parts, rest).0) <==> HasNsfw(parts)
  {
    if |parts| > 0 {
      FirstOrRest(parts);
      FirstOrRest(Extend(c, parts, rest).0);
      assert Extend(c, parts, rest).0[1..] == parts[1..];
    }
  }

  /**
   Replacing the hashtags of a text cuts it at its tags, each the first one behind the tag before it,
   and puts spans in the place of their brackets; a work-safe board refuses the tag `#nsfw`.
   */
  lemma TagsReplaced(m: Markup, worksafe: bool, s: string)
    ensures exists parts, rest :: Source(parts, rest) == s && FirstTags(parts, rest)
              && ReplaceTags(m, worksafe, s) ==
                   if worksafe && HasNsfw(parts) then Failure(WorksafeBoard) else Success(Marked(m, parts, rest))
  {
    PartsSource(s);
    PartsFirst(s);
    PartsMarked(m, worksafe, s);
    assert Source(PartsOf(s).0, PartsOf(s).1) == s;
  }
}
