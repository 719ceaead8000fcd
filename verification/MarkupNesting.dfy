/**
 Why the tags that `FormatMessage` inserts are well nested: replacing hashtags on the text of a
 line is replacing them on its tokens, where no tag can be cut, and that keeps the nesting.
 */
module MarkupNesting {
  import opened Wrappers
  import opened Strings
  import opened Formatting

  // ---------------------------------------------------------------- hashtags, on tokens

  predicate HasCloseToken(tokens: seq<Token>, from: nat) {
    exists i :: from <= i < |tokens| && tokens[i] == Char(']')
  }

  predicate FrontMatch(tokens: seq<Token>) {
    |tokens| > 2 && tokens[0] == Char('[') && tokens[1] == Char('#') && tokens[2] != Char(']')
        && HasCloseToken(tokens, 3)
  }

  function FirstCloseToken(tokens: seq<Token>, from: nat): (i: nat)
    requires HasCloseToken(tokens, from)
    ensures from <= i < |tokens| && tokens[i] == Char(']') && forall j :: from <= j < i ==> tokens[j] != Char(']')
    decreases |tokens| - from
  {
    if tokens[from] == Char(']') then from else FirstCloseToken(tokens, from + 1)
  }

  /** The hashtag spans put around whole tokens. */
  function TagTokens(m: Markup, worksafe: bool, tokens: seq<Token>): Result<seq<Token>, Error> {
    if |tokens| == 0 then Success([])
    else if FrontMatch(tokens) then
      var e := FirstCloseToken(tokens, 3);
      var nsfw := IsNsfw(Render(m, tokens[1..e]));
      if nsfw && worksafe then Failure(WorksafeBoard)
      else
        var rest := TagTokens(m, worksafe, tokens[e + 1..]);
        if rest.Failure? then rest else Success([TagOpen(nsfw)] + tokens[1..e] + [TagClose] + rest.value)
    else
      var rest := TagTokens(m, worksafe, tokens[1..]);
      if rest.Failure? then rest else Success([tokens[0]] + rest.value)
  }

  function Rendered(m: Markup, tokens: Result<seq<Token>, Error>): Result<string, Error> {
    if tokens.Failure? then Failure(tokens.error) else Success(Render(m, tokens.value))
  }

  // ---------------------------------------------------------------- text that no match can cut

  ghost predicate NoClose(s: string) {
    forall i :: 0 <= i < |s| ==> s[i] != ']'
  }

  ghost predicate NoOpen(s: string) {
    forall i :: 0 <= i < |s| - 1 ==> !(s[i] == '[' && s[i + 1] == '#')
  }

  /** Neither does a match begin or end inside `s`, nor begin or end at its edges. */
  ghost predicate Solid(s: string) {
    NoClose(s) && NoOpen(s) && |s| > 0 && s[0] != '#' && s[|s| - 1] != '['
  }

  ghost predicate SolidTokens(m: Markup, tokens: seq<Token>) {
    forall i :: 0 <= i < |tokens| ==> tokens[i].Char? || Solid(Text(m, tokens[i]))
  }

  lemma {:induction false} SkipSolid(m: Markup, worksafe: bool, text: string, rest: string)
    requires NoOpen(text) && (|text| > 0 ==> text[|text| - 1] != '[')
    ensures var r := ReplaceTags(m, worksafe, rest);
            ReplaceTags(m, worksafe, text + rest) == if r.Failure? then r else Success(text + r.value)
  {
    if |text| == 0 {
      assert text + rest == rest;
      var r := ReplaceTags(m, worksafe, rest);
      assert r.Success? ==> text + r.value == r.value;
    } else {
      var s := text + rest;
      assert s[1..] == text[1..] + rest;
      assert !MatchesAtFront(s) by {
        assert |text| > 1 ==> s[1] == text[1];
      }
      SkipSolid(m, worksafe, text[1..], rest);
      var r := ReplaceTags(m, worksafe, rest);
      assert r.Success? ==> [s[0]] + (text[1..] + r.value) == text + r.value;
    }
  }

  lemma {:induction false} RenderNoClose(m: Markup, tokens: seq<Token>)
    requires SolidTokens(m, tokens)
    ensures NoClose(Render(m, tokens)) <==> !HasCloseToken(tokens, 0)
    ensures |Render(m, tokens)| >= |tokens|
  {
    if |tokens| > 0 {
      RenderFirst(m, tokens);
      RenderNoClose(m, tokens[1..]);
      var first, rest := Text(m, tokens[0]), Render(m, tokens[1..]);
      assert forall i :: 0 <= i < |tokens| - 1 ==> tokens[1..][i] == tokens[i + 1];
      assert HasCloseToken(tokens, 0) <==> tokens[0] == Char(']') || HasCloseToken(tokens[1..], 0);
      NoCloseConcat(first, rest);
      if tokens[0].Char? {
        assert first == [tokens[0].c];
        assert NoClose(first) <==> first[0] != ']';
      }
    }
  }

  lemma NoCloseConcat(a: string, b: string)
    ensures NoClose(a + b) <==> NoClose(a) && NoClose(b)
  {
    if NoClose(a + b) {
      assert forall i :: 0 <= i < |a| ==> (a + b)[i] == a[i];
      assert forall i :: 0 <= i < |b| ==> (a + b)[|a| + i] == b[i];
    }
  }

  /** The first character of the text of some tokens. */
  lemma RenderHead(m: Markup, tokens: seq<Token>)
    requires SolidTokens(m, tokens) && |tokens| > 0
    ensures var s := Render(m, tokens);
            && |s| > 0 && (s[0] == '#' <==> tokens[0] == Char('#')) && (s[0] == ']' <==> tokens[0] == Char(']'))
            && (tokens[0].Char? ==> s[0] == tokens[0].c && s[1..] == Render(m, tokens[1..]))
  {
    RenderFirst(m, tokens);
    var first, s := Text(m, tokens[0]), Render(m, tokens);
    assert |first| > 0 && s[0] == first[0];
    if tokens[0].Char? {
      assert s == [tokens[0].c] + Render(m, tokens[1..]);
    } else {
      assert Solid(first);
    }
  }

  /** Two tokens that are characters give the first two characters of the text. */
  lemma RenderTwo(m: Markup, tokens: seq<Token>)
    requires SolidTokens(m, tokens) && |tokens| > 0 && tokens[0].Char?
    ensures var s := Render(m, tokens);
            && |s| > 0 && s[0] == tokens[0].c
            && (|s| > 1 <==> |tokens| > 1)
            && (|tokens| > 1 ==> (s[1] == '#' <==> tokens[1] == Char('#')))
            && (|tokens| > 1 && tokens[1].Char? ==>
                  && s[2..] == Render(m, tokens[2..])
                  && (|tokens| > 2 ==> |s| > 2 && (s[2] == ']' <==> tokens[2] == Char(']'))))
  {
    var s, one := Render(m, tokens), tokens[1..];
    RenderHead(m, tokens);
    assert s[1..] == Render(m, one);
    if |tokens| > 1 {
      RenderHead(m, one);
      var two := tokens[2..];
      assert one[0] == tokens[1] && two == one[1..];
      if tokens[1].Char? {
        assert s[2..] == s[1..][1..] == Render(m, two);
        if |tokens| > 2 {
          RenderHead(m, two);
          assert two[0] == tokens[2];
          assert s[2] == s[2..][0];
        }
      }
    } else {
      assert one == [] && Render(m, one) == "";
    }
  }

  lemma MatchNeedsClose(m: Markup, tokens: seq<Token>)
    requires SolidTokens(m, tokens) && |tokens| > 0 && tokens[0] != Char(']')
    ensures HasClose(Render(m, tokens), 1) <==> HasCloseToken(tokens, 1)
  {
    var s := Render(m, tokens);
    RenderNoClose(m, tokens);
    RenderFirst(m, tokens);
    assert s[0] != ']' by {
      if tokens[0].Char? {
        assert s[0] == tokens[0].c;
      } else {
        assert s[0] == Text(m, tokens[0])[0];
      }
    }
    assert NoClose(s) <==> !HasClose(s, 1);
    assert HasCloseToken(tokens, 0) <==> HasCloseToken(tokens, 1);
  }

  /** The expression matches the text of a line that starts with a character exactly when its tokens match. */
  lemma FrontMatchIff(m: Markup, tokens: seq<Token>)
    requires SolidTokens(m, tokens) && |tokens| > 0 && tokens[0].Char?
    ensures MatchesAtFront(Render(m, tokens)) <==> FrontMatch(tokens)
  {
    var s := Render(m, tokens);
    RenderTwo(m, tokens);
    if |tokens| > 2 && tokens[0] == Char('[') && tokens[1] == Char('#') && tokens[2] != Char(']') {
      var rest := tokens[2..];
      MatchNeedsClose(m, rest);
      assert s[2..] == Render(m, rest);
      assert forall i :: 3 <= i < |s| ==> s[i] == s[2..][i - 2];
      assert forall i :: 1 <= i < |s[2..]| ==> s[2..][i] == s[i + 2];
      assert HasClose(s, 3) <==> HasClose(s[2..], 1);
      assert forall i :: 3 <= i < |tokens| ==> tokens[i] == rest[i - 2];
      assert forall i :: 1 <= i < |rest| ==> rest[i] == tokens[i + 2];
      assert HasCloseToken(tokens, 3) <==> HasCloseToken(rest, 1);
    } else if |tokens| == 2 && tokens[1].Char? {
      assert tokens[2..] == [] && Render(m, []) == "";
    }
  }

  lemma RenderChar(m: Markup, c: char, rest: seq<Token>)
    ensures Render(m, [Char(c)] + rest) == [c] + Render(m, rest)
  {
    RenderFirst(m, [Char(c)] + rest);
    assert ([Char(c)] + rest)[1..] == rest;
  }

  lemma RenderAround(m: Markup, tokens: seq<Token>, e: nat)
    requires 0 < e < |tokens| && tokens[0] == Char('[') && tokens[e] == Char(']')
    ensures Render(m, tokens) == "[" + (Render(m, tokens[1..e]) + ("]" + Render(m, tokens[e + 1..])))
  {
    var inside, after := tokens[1..e], tokens[e + 1..];
    assert tokens == [Char('[')] + (inside + ([Char(']')] + after));
    RenderChar(m, '[', inside + ([Char(']')] + after));
    RenderConcat(m, inside, [Char(']')] + after);
    RenderChar(m, ']', after);
  }

  /** Where tokens match, the text is the one before the closing bracket, the bracket, and the rest. */
  lemma MatchParts(m: Markup, tokens: seq<Token>)
    requires SolidTokens(m, tokens) && FrontMatch(tokens)
    ensures var s := Render(m, tokens);
            var e := FirstCloseToken(tokens, 3);
            MatchesAtFront(s) && s[1..FirstClose(s, 3)] == Render(m, tokens[1..e])
            && s[FirstClose(s, 3) + 1..] == Render(m, tokens[e + 1..])
  {
    var e := FirstCloseToken(tokens, 3);
    FrontMatchIff(m, tokens);
    RenderAround(m, tokens, e);
    RenderNoClose(m, tokens[1..e]);
    FirstCloseIs(Render(m, tokens), Render(m, tokens[1..e]), Render(m, tokens[e + 1..]));
  }

  lemma FirstCloseIs(s: string, inside: string, after: string)
    requires s == "[" + (inside + ("]" + after)) && NoClose(inside) && |inside| >= 2
    ensures HasClose(s, 3) && FirstClose(s, 3) == |inside| + 1
    ensures s[1..|inside| + 1] == inside && s[|inside| + 2..] == after
  {
    assert s[|inside| + 1] == ']';
    assert forall i :: 1 <= i < |inside| + 1 ==> s[i] == inside[i - 1];
  }

  /**
   Replacing hashtags on the text of solid tokens is replacing them on the tokens: no match cuts
   into an inserted tag.
   */
  lemma {:induction false} ReplaceIsTagTokens(m: Markup, worksafe: bool, tokens: seq<Token>)
    requires SolidTokens(m, tokens)
    ensures ReplaceTags(m, worksafe, Render(m, tokens)) == Rendered(m, TagTokens(m, worksafe, tokens))
    decreases |tokens|
  {
    if |tokens| == 0 {
    } else if FrontMatch(tokens) {
      var e := FirstCloseToken(tokens, 3);
      ReplaceIsTagTokens(m, worksafe, tokens[e + 1..]);
      ReplaceMatch(m, worksafe, tokens, e);
    } else {
      ReplaceIsTagTokens(m, worksafe, tokens[1..]);
      ReplaceFirst(m, worksafe, tokens);
    }
  }

  lemma ReplaceMatch(m: Markup, worksafe: bool, tokens: seq<Token>, e: nat)
    requires SolidTokens(m, tokens) && FrontMatch(tokens) && e == FirstCloseToken(tokens, 3)
    requires ReplaceTags(m, worksafe, Render(m, tokens[e + 1..])) ==
        Rendered(m, TagTokens(m, worksafe, tokens[e + 1..]))
    ensures ReplaceTags(m, worksafe, Render(m, tokens)) == Rendered(m, TagTokens(m, worksafe, tokens))
  {
    MatchParts(m, tokens);
    var inside, after := tokens[1..e], tokens[e + 1..];
    ReplaceAtMatch(m, worksafe, Render(m, tokens), Render(m, inside), Render(m, after));
    var rest := TagTokens(m, worksafe, after);
    if rest.Success? {
      RenderSpan(m, IsNsfw(Render(m, inside)), inside, rest.value);
    }
  }

  lemma ReplaceAtMatch(m: Markup, worksafe: bool, s: string, tag: string, after: string)
    requires MatchesAtFront(s) && s[1..FirstClose(s, 3)] == tag && s[FirstClose(s, 3) + 1..] == after
    ensures ReplaceTags(m, worksafe, s) ==
              if IsNsfw(tag) && worksafe then Failure(WorksafeBoard)
              else
                var rest := ReplaceTags(m, worksafe, after);
                if rest.Failure? then rest else Success(SpanOpen(m, IsNsfw(tag)) + tag + m.spanClose + rest.value)
  {
  }

  lemma ReplaceFirst(m: Markup, worksafe: bool, tokens: seq<Token>)
    requires SolidTokens(m, tokens) && |tokens| > 0 && !FrontMatch(tokens)
    requires ReplaceTags(m, worksafe, Render(m, tokens[1..])) == Rendered(m, TagTokens(m, worksafe, tokens[1..]))
    ensures ReplaceTags(m, worksafe, Render(m, tokens)) == Rendered(m, TagTokens(m, worksafe, tokens))
  {
    RenderFirst(m, tokens);
    var rest := TagTokens(m, worksafe, tokens[1..]);
    if rest.Success? {
      RenderConcat(m, [tokens[0]], rest.value);
      RenderOne(m, tokens[0]);
    }
    if tokens[0].Char? {
      FrontMatchIff(m, tokens);
      assert Render(m, tokens)[1..] == Render(m, tokens[1..]);
    } else {
      SkipSolid(m, worksafe, Text(m, tokens[0]), Render(m, tokens[1..]));
    }
  }

  lemma RenderSpan(m: Markup, nsfw: bool, inside: seq<Token>, rest: seq<Token>)
    ensures Render(m, [TagOpen(nsfw)] + inside + [TagClose] + rest) ==
              SpanOpen(m, nsfw) + Render(m, inside) + m.spanClose + Render(m, rest)
  {
    RenderConcat(m, [TagOpen(nsfw)] + inside + [TagClose], rest);
    RenderConcat(m, [TagOpen(nsfw)] + inside, [TagClose]);
    RenderConcat(m, [TagOpen(nsfw)], inside);
    RenderOne(m, TagOpen(nsfw));
    RenderOne(m, TagClose);
  }

  // ---------------------------------------------------------------- lines are solid

  /** No match begins in `s` and none ends there. */
  ghost predicate Uncut(s: string) {
    NoClose(s) && NoOpen(s)
  }

  lemma UncutConcat(a: string, b: string)
    requires Uncut(a) && Uncut(b) && (|a| > 0 && |b| > 0 ==> b[0] != '#' || a[|a| - 1] != '[')
    ensures Uncut(a + b)
  {
    NoCloseConcat(a, b);
    var s := a + b;
    forall i | 0 <= i < |s| - 1 ensures !(s[i] == '[' && s[i + 1] == '#') {
      if i + 1 < |a| {
        assert s[i] == a[i] && s[i + 1] == a[i + 1];
      } else if i + 1 == |a| {
        assert s[i] == a[|a| - 1] && s[i + 1] == b[0];
      } else {
        assert s[i] == b[i - |a|] && s[i + 1] == b[i + 1 - |a|];
      }
    }
  }

  ghost predicate SolidMarkup(m: Markup) {
    && Solid(m.anchor) && Solid(m.anchorEnd) && Solid(m.anchorClose) && Solid(m.dead) && Solid(m.deadClose)
    && Solid(m.green) && Solid(m.hashtag) && Solid(m.nsfw) && Solid(m.spanClose)
  }

  lemma AnchorIsSolid()
    ensures Solid(HTML.anchor)
  {
  }

  lemma AnchorEndIsSolid()
    ensures Solid(HTML.anchorEnd)
  {
  }

  lemma AnchorCloseIsSolid()
    ensures Solid(HTML.anchorClose)
  {
  }

  lemma DeadLinkMarkupIsSolid()
    ensures Solid(HTML.dead)
  {
    var a, strike := "<a href=\"javascript:;\">", "<strike>";
    UncutConcat(a, strike);
  }

  lemma DeadLinkCloseIsSolid()
    ensures Solid(HTML.deadClose)
  {
  }

  lemma GreenMarkupIsSolid()
    ensures Solid(HTML.green)
  {
  }

  lemma SpanCloseIsSolid()
    ensures Solid(HTML.spanClose)
  {
  }

  lemma HashtagMarkupIsSolid()
    ensures Solid(HTML.hashtag)
  {
  }

  lemma NsfwMarkupIsSolid()
    ensures Solid(HTML.nsfw)
  {
  }

  lemma HtmlIsSolid()
    ensures SolidMarkup(HTML)
  {
    AnchorIsSolid();
    AnchorEndIsSolid();
    AnchorCloseIsSolid();
    DeadLinkMarkupIsSolid();
    DeadLinkCloseIsSolid();
    GreenMarkupIsSolid();
    SpanCloseIsSolid();
    HashtagMarkupIsSolid();
    NsfwMarkupIsSolid();
  }

  /** The characters of numbers and of the words that refer to posts. */
  ghost predicate Plain(s: string) {
    forall i :: 0 <= i < |s| ==> s[i] != '[' && s[i] != ']' && s[i] != '#'
  }

  lemma PlainIsUncut(s: string)
    requires Plain(s)
    ensures Uncut(s)
  {
  }

  lemma {:induction false} DecimalIsPlain(n: int)
    ensures Plain(Decimal(n)) && |Decimal(n)| > 0
    decreases n < 0, if n < 0 then -n else n
  {
    if n < 0 {
      DecimalIsPlain(-n);
    } else if n >= 10 {
      DecimalIsPlain(n / 10);
    }
  }

  lemma BacklinkWordIsPlain(word: string)
    requires OnlyAtStart(word, "&gt;&gt;") && Atoi(word[8..]).Some?
    ensures Plain(word) && Plain(word[8..])
  {
    assert word == word[..8] + word[8..];
    assert word[..8] == "&gt;&gt;";
    var number := word[8..];
    forall i | 0 <= i < |number| ensures number[i] != '[' && number[i] != ']' && number[i] != '#' {
      assert number[i] == '-' || number[i] == '+' || '0' <= number[i] <= '9' by {
        if !('0' <= number[i] <= '9') && i > 0 {
          assert number[1..][i - 1] == number[i];
        }
      }
    }
  }

  /** What links point into: the web root followed by the directory of a post's board. */
  ghost predicate IsLinkBase(env: Env, base: string) {
    exists id: int :: IsBaseOf(env, id, base)
  }

  ghost predicate IsBaseOf(env: Env, id: int, base: string) {
    -0x8000_0000_0000_0000 <= id < 0x8000_0000_0000_0000
    && env.lookup(id).Found? && env.lookup(id).parent != 0 && base == env.webRoot + env.lookup(id).dir
  }

  /** No link base contains `]` or the two characters `[#`. */
  ghost predicate UncutLinks(env: Env) {
    forall base :: IsLinkBase(env, base) ==> Uncut(base)
  }

  lemma HrefIsUncut(env: Env, parent: int, dir: string, number: string)
    requires Uncut(env.webRoot + dir) && Plain(number)
    ensures Uncut(Href(env, parent, dir, number))
  {
    var base := env.webRoot + dir;
    DecimalIsPlain(parent);
    PlainIsUncut("/res/");
    UncutConcat(base, "/res/");
    PlainIsUncut(Decimal(parent));
    UncutConcat(base + "/res/", Decimal(parent));
    UncutConcat(base + "/res/" + Decimal(parent), ".html#");
    PlainIsUncut(number);
    UncutConcat(base + "/res/" + Decimal(parent) + ".html#", number);
  }

  lemma SolidWrap(open: string, s: string, close: string)
    requires Solid(open) && Uncut(s) && Solid(close)
    ensures Solid(open + s + close)
  {
    UncutConcat(open, s);
    UncutConcat(open + s, close);
    var whole := open + s + close;
    assert whole[0] == open[0] && whole[|whole| - 1] == close[|close| - 1];
  }

  lemma WordIsSolid(env: Env, word: string, first: bool)
    requires SolidMarkup(env.markup) && UncutLinks(env) && WordTokens(env, word, first).Success?
    ensures SolidTokens(env.markup, WordTokens(env, word, first).value)
  {
    var m := env.markup;
    if OnlyAtStart(word, "&gt;&gt;") && Atoi(word[8..]).Some? {
      BacklinkWordIsPlain(word);
      PlainIsUncut(word);
      var id := Atoi(word[8..]).value;
      var found := env.lookup(id);
      if found.Found? && found.parent != 0 {
        assert IsBaseOf(env, id, env.webRoot + found.dir);
        assert IsLinkBase(env, env.webRoot + found.dir);
        var href := Href(env, found.parent, found.dir, word[8..]);
        HrefIsUncut(env, found.parent, found.dir, word[8..]);
        SolidWrap(m.anchor, href, m.anchorEnd);
        SolidWrap(m.anchor + href + m.anchorEnd, word, m.anchorClose);
      } else {
        SolidWrap(m.dead, word, m.deadClose);
      }
    }
  }

  lemma {:induction false} JoinIsSolid(env: Env, words: seq<string>)
    requires SolidMarkup(env.markup) && UncutLinks(env) && JoinTokens(env, words).Success?
    ensures SolidTokens(env.markup, JoinTokens(env, words).value)
  {
    if |words| > 0 {
      var last := |words| - 1;
      JoinIsSolid(env, words[..last]);
      WordIsSolid(env, words[last], last == 0);
    }
  }

  // ---------------------------------------------------------------- nesting

  /** The elements that are opened and closed; the two kinds of span are told apart. */
  datatype Name = Anchor | Strike | Green | Hashtag

  datatype Event = Start(name: Name) | End(name: Name)

  function Events(t: Token): seq<Event> {
    match t
    case Char(_) => []
    case Backlink(_, _) => [Start(Anchor), End(Anchor)]
    case DeadLink(_) => [Start(Anchor), Start(Strike), End(Strike), End(Anchor)]
    case GreenOpen => [Start(Green)]
    case GreenClose => [End(Green)]
    case TagOpen(_) => [Start(Hashtag)]
    case TagClose => [End(Hashtag)]
  }

  /**
   The open elements after some tags, given those open before; `None` when a tag closes what is not
   open innermost.
   */
  function NestEvents(events: seq<Event>, open: seq<Name>): Option<seq<Name>> {
    if |events| == 0 then Some(open)
    else match events[0]
      case Start(name) => NestEvents(events[1..], open + [name])
      case End(name) =>
        if |open| == 0 || open[|open| - 1] != name then None else NestEvents(events[1..], open[..|open| - 1])
  }

  function Nest(tokens: seq<Token>, open: seq<Name>): Option<seq<Name>> {
    if |tokens| == 0 then Some(open)
    else
      var first := NestEvents(Events(tokens[0]), open);
      if first.None? then None else Nest(tokens[1..], first.value)
  }

  predicate WellNested(tokens: seq<Token>) {
    Nest(tokens, []) == Some([])
  }

  /** Characters and whole anchors. */
  predicate Neutral(t: Token) {
    t.Char? || t.Backlink? || t.DeadLink?
  }

  /** An opening tag opens its element inside those that are open. */
  lemma NestOpens(t: Token, name: Name, rest: seq<Token>, open: seq<Name>)
    requires Events(t) == [Start(name)]
    ensures Nest([t] + rest, open) == Nest(rest, open + [name])
  {
    var events := [Start(name)];
    assert ([t] + rest)[1..] == rest && events[1..] == [];
    assert NestEvents(events, open) == NestEvents([], open + [name]);
  }

  /** A closing tag closes the innermost element, and nothing else. */
  lemma NestCloses(t: Token, name: Name, rest: seq<Token>, open: seq<Name>)
    requires Events(t) == [End(name)]
    ensures |open| == 0 || open[|open| - 1] != name ==> Nest([t] + rest, open) == None
    ensures |open| > 0 && open[|open| - 1] == name ==> Nest([t] + rest, open) == Nest(rest, open[..|open| - 1])
  {
    var events := [End(name)];
    assert ([t] + rest)[1..] == rest && events[1..] == [];
    assert |open| > 0 && open[|open| - 1] == name ==>
             NestEvents(events, open) == NestEvents([], open[..|open| - 1]);
  }

  lemma NeutralNests(t: Token, open: seq<Name>)
    requires Neutral(t)
    ensures NestEvents(Events(t), open) == Some(open)
  {
    match t
    case Char(_) =>
    case Backlink(_, _) =>
      assert (open + [Anchor])[..|open|] == open;
      assert NestEvents([End(Anchor)], open + [Anchor]) == NestEvents([], open);
    case DeadLink(_) =>
      var inner := open + [Anchor];
      assert (inner + [Strike])[..|inner|] == inner && inner[..|open|] == open;
      assert NestEvents([End(Anchor)], inner) == NestEvents([], open);
      assert NestEvents([End(Strike), End(Anchor)], inner + [Strike]) == NestEvents([End(Anchor)], inner);
      assert Events(t)[1..] == [Start(Strike), End(Strike), End(Anchor)];
      assert Events(t)[1..][1..] == [End(Strike), End(Anchor)];
  }

  lemma {:induction false} NestConcat(a: seq<Token>, b: seq<Token>, open: seq<Name>)
    ensures Nest(a + b, open) == if Nest(a, open).None? then None else Nest(b, Nest(a, open).value)
  {
    if |a| == 0 {
      assert a + b == b;
    } else {
      assert (a + b)[1..] == a[1..] + b;
      var first := NestEvents(Events(a[0]), open);
      if first.Some? {
        NestConcat(a[1..], b, first.value);
      }
    }
  }

  lemma {:induction false} AllNeutralNests(tokens: seq<Token>, open: seq<Name>)
    requires forall i :: 0 <= i < |tokens| ==> Neutral(tokens[i])
    ensures Nest(tokens, open) == Some(open)
  {
    if |tokens| > 0 {
      NeutralNests(tokens[0], open);
      AllNeutralNests(tokens[1..], open);
    }
  }

  lemma SpanNests(nsfw: bool, inside: seq<Token>, open: seq<Name>)
    requires forall i :: 0 <= i < |inside| ==> Neutral(inside[i])
    ensures Nest([TagOpen(nsfw)] + inside + [TagClose], open) == Some(open)
  {
    var inner := open + [Hashtag];
    AllNeutralNests(inside, inner);
    NestConcat([TagOpen(nsfw)] + inside, [TagClose], open);
    NestConcat([TagOpen(nsfw)], inside, open);
    assert [TagOpen(nsfw)][1..] == [] && [TagClose][1..] == [];
    assert [Start(Hashtag)][1..] == [] && [End(Hashtag)][1..] == [];
    assert NestEvents([Start(Hashtag)], open) == NestEvents([], inner) == Some(inner);
    assert inner[..|open|] == open;
    assert NestEvents([End(Hashtag)], inner) == NestEvents([], open) == Some(open);
    assert Nest([TagOpen(nsfw)], open) == Nest([], inner);
    assert Nest([TagClose], inner) == Nest([], open);
  }

  /** Hashtag spans keep the nesting of a line whose only other spans are at its ends. */
  lemma {:induction false} TagsKeepNesting(m: Markup, worksafe: bool, tokens: seq<Token>, open: seq<Name>)
    requires forall i :: 0 < i < |tokens| - 1 ==> Neutral(tokens[i])
    requires TagTokens(m, worksafe, tokens).Success?
    ensures Nest(TagTokens(m, worksafe, tokens).value, open) == Nest(tokens, open)
    decreases |tokens|
  {
    if |tokens| == 0 {
    } else if FrontMatch(tokens) {
      var e := FirstCloseToken(tokens, 3);
      var nsfw := IsNsfw(Render(m, tokens[1..e]));
      var rest := TagTokens(m, worksafe, tokens[e + 1..]).value;
      TagsKeepNesting(m, worksafe, tokens[e + 1..], open);
      NestAroundSpan(nsfw, tokens, e, rest, open);
      assert TagTokens(m, worksafe, tokens).value == [TagOpen(nsfw)] + tokens[1..e] + [TagClose] + rest;
    } else {
      var first := NestEvents(Events(tokens[0]), open);
      var rest := TagTokens(m, worksafe, tokens[1..]).value;
      if first.Some? {
        TagsKeepNesting(m, worksafe, tokens[1..], first.value);
      }
      NestFirst(tokens[0], rest, tokens[1..], open);
      assert tokens == [tokens[0]] + tokens[1..];
      assert TagTokens(m, worksafe, tokens).value == [tokens[0]] + rest;
    }
  }

  lemma NestFirst(t: Token, a: seq<Token>, b: seq<Token>, open: seq<Name>)
    requires var first := NestEvents(Events(t), open); first.Some? ==> Nest(a, first.value) == Nest(b, first.value)
    ensures Nest([t] + a, open) == Nest([t] + b, open)
  {
    assert ([t] + a)[1..] == a && ([t] + b)[1..] == b;
  }

  lemma NestAroundSpan(nsfw: bool, tokens: seq<Token>, e: nat, rest: seq<Token>, open: seq<Name>)
    requires 0 < e < |tokens| && forall i :: 0 <= i <= e ==> Neutral(tokens[i])
    requires Nest(rest, open) == Nest(tokens[e + 1..], open)
    ensures Nest([TagOpen(nsfw)] + tokens[1..e] + [TagClose] + rest, open) == Nest(tokens, open)
  {
    SpanNests(nsfw, tokens[1..e], open);
    NestConcat([TagOpen(nsfw)] + tokens[1..e] + [TagClose], rest, open);
    AllNeutralNests(tokens[..e + 1], open);
    assert tokens == tokens[..e + 1] + tokens[e + 1..];
    NestConcat(tokens[..e + 1], tokens[e + 1..], open);
  }

  lemma WordShape(env: Env, word: string, first: bool)
    requires WordTokens(env, word, first).Success?
    ensures var tokens := WordTokens(env, word, first).value;
            if first && IsGreentext([word])
            then |tokens| > 0 && tokens[0] == GreenOpen && forall i :: 1 <= i < |tokens| ==> Neutral(tokens[i])
            else forall i :: 0 <= i < |tokens| ==> Neutral(tokens[i])
  {
  }

  /** Only the first token of a line before its end is not neutral, and only in greentext. */
  ghost predicate LineShape(green: bool, tokens: seq<Token>) {
    && (green ==> |tokens| > 0 && tokens[0] == GreenOpen)
    && forall i :: (if green then 1 else 0) <= i < |tokens| ==> Neutral(tokens[i])
  }

  /** Neutral tokens behind a line keep its shape. */
  lemma ShapeAppend(green: bool, front: seq<Token>, word: seq<Token>)
    requires LineShape(green, front) && forall i :: 0 <= i < |word| ==> Neutral(word[i])
    ensures LineShape(green, front + [Char(' ')] + word)
  {
  }

  lemma {:induction false} JoinShape(env: Env, words: seq<string>)
    requires JoinTokens(env, words).Success?
    ensures LineShape(IsGreentext(words), JoinTokens(env, words).value)
  {
    if |words| > 0 {
      var last := |words| - 1;
      var front, word := JoinTokens(env, words[..last]).value, WordTokens(env, words[last], last == 0).value;
      WordShape(env, words[last], last == 0);
      if last > 0 {
        JoinShape(env, words[..last]);
        assert words[..last][0] == words[0];
        ShapeAppend(IsGreentext(words), front, word);
      } else {
        assert front + [] + word == word;
      }
    }
  }

  lemma LineNests(env: Env, words: seq<string>)
    requires LineTokens(env, words).Success?
    ensures WellNested(LineTokens(env, words).value)
    ensures forall i :: 0 < i < |LineTokens(env, words).value| - 1 ==> Neutral(LineTokens(env, words).value[i])
  {
    JoinShape(env, words);
    var tokens := JoinTokens(env, words).value;
    if IsGreentext(words) {
      var body := tokens[1..];
      AllNeutralNests(body, [Green]);
      NestConcat(body, [GreenClose], [Green]);
      var line := tokens + [GreenClose];
      assert line[0] == GreenOpen && line[1..] == body + [GreenClose];
      assert [Start(Green)][1..] == [] && [End(Green)][1..] == [] && [GreenClose][1..] == [];
      assert [] + [Green] == [Green];
      assert NestEvents([Start(Green)], []) == NestEvents([], [Green]);
      assert [Green][..0] == [];
      assert NestEvents([End(Green)], [Green]) == NestEvents([], []);
      assert Nest([GreenClose], [Green]) == Nest([], []);
    } else {
      AllNeutralNests(tokens, []);
      assert tokens + [] == tokens;
    }
  }

  // ---------------------------------------------------------------- results

  /** The line's text is the text of its tokens with whole-token hashtag spans: no inserted tag is cut. */
  ghost predicate TagsStayWhole(env: Env, words: seq<string>) {
    var line := LineTokens(env, words);
    line.Success? ==>
      ReplaceTags(env.markup, env.worksafe, Render(env.markup, line.value)) ==
      Rendered(env.markup, TagTokens(env.markup, env.worksafe, line.value))
  }

  lemma LinesStayWhole(env: Env, words: seq<string>)
    requires SolidMarkup(env.markup) && UncutLinks(env)
    ensures TagsStayWhole(env, words)
  {
    if LineTokens(env, words).Success? {
      JoinIsSolid(env, words);
      ReplaceIsTagTokens(env.markup, env.worksafe, LineTokens(env, words).value);
    }
  }

  /**
   On every line that `FormatMessage` formats without an error, the tags it inserts are whole,
   well nested and balanced, for any words, if no link base contains `]` or `[#`.
   */
  lemma LinesAreWellNested(env: Env, words: seq<string>)
    requires env.markup == HTML && UncutLinks(env) && LineTokens(env, words).Success?
    requires ReplaceTags(HTML, env.worksafe, Render(HTML, LineTokens(env, words).value)).Success?
    ensures var tagged := TagTokens(HTML, env.worksafe, LineTokens(env, words).value);
            && tagged.Success? && WellNested(tagged.value)
            && ReplaceTags(HTML, env.worksafe, Render(HTML, LineTokens(env, words).value)) ==
                Success(Render(HTML, tagged.value))
  {
    HtmlIsSolid();
    LinesStayWhole(env, words);
    LineNests(env, words);
    TagsKeepNesting(HTML, env.worksafe, LineTokens(env, words).value, []);
  }

  // ---------------------------------------------------------------- and only then

  /** A match anywhere makes the text longer or is an error. */
  lemma {:induction false} MatchChangesText(m: Markup, worksafe: bool, s: string, p: nat)
    requires |m.hashtag| + |m.spanClose| > 2 && |m.nsfw| + |m.spanClose| > 2
    requires p <= |s|
    ensures var r := ReplaceTags(m, worksafe, s);
            r.Success? ==> |r.value| >= |s| && (MatchesAtFront(s[p..]) ==> |r.value| > |s|)
    decreases |s|
  {
    if |s| > 0 {
      if MatchesAtFront(s) {
        MatchChangesText(m, worksafe, s[FirstClose(s, 3) + 1..], 0);
      } else if p > 0 {
        MatchChangesText(m, worksafe, s[1..], p - 1);
        assert s[1..][p - 1..] == s[p..];
      } else {
        MatchChangesText(m, worksafe, s[1..], 0);
        assert s[p..] == s;
      }
    }
  }

  lemma {:induction false} NoMatchNoTags(m: Markup, worksafe: bool, tokens: seq<Token>)
    requires forall i :: 0 <= i < |tokens| ==> !FrontMatch(tokens[i..])
    ensures TagTokens(m, worksafe, tokens) == Success(tokens)
  {
    if |tokens| > 0 {
      assert tokens[0..] == tokens;
      forall i | 0 <= i < |tokens| - 1 ensures !FrontMatch(tokens[1..][i..]) {
        assert tokens[1..][i..] == tokens[i + 1..];
      }
      NoMatchNoTags(m, worksafe, tokens[1..]);
      assert [tokens[0]] + tokens[1..] == tokens;
    }
  }

  lemma {:induction false} DecimalDigits(n: nat)
    ensures IsDigits(Decimal(n)) && |Decimal(n)| > 0 && DigitsValue(Decimal(n)) == n
    decreases n
  {
    if n >= 10 {
      DecimalDigits(n / 10);
      var s := Decimal(n);
      assert s[..|s| - 1] == Decimal(n / 10);
    } else {
      assert Decimal(n)[..0] == "";
    }
  }

  lemma AtoiDigits(s: string)
    requires IsDigits(s) && |s| > 0
    ensures Atoi(s) == if DigitsValue(s) < 0x8000_0000_0000_0000 then Some(DigitsValue(s)) else None
  {
    assert '0' <= s[0] <= '9';
  }

  lemma AtoiNegative(s: string)
    requires IsDigits(s) && |s| > 0
    ensures Atoi("-" + s) == if DigitsValue(s) <= 0x8000_0000_0000_0000 then Some(-DigitsValue(s)) else None
  {
    AtoiSigned("-" + s);
    assert ("-" + s)[1..] == s;
  }

  lemma AtoiSigned(t: string)
    requires |t| > 1 && t[0] == '-' && IsDigits(t[1..])
    ensures Atoi(t) == if DigitsValue(t[1..]) <= 0x8000_0000_0000_0000 then Some(-DigitsValue(t[1..])) else None
  {
  }

  /** `Atoi` reads back what `%d` prints, if it fits into 64 bits. */
  lemma AtoiDecimal(n: int)
    ensures Atoi(Decimal(n)) == if -0x8000_0000_0000_0000 <= n < 0x8000_0000_0000_0000 then Some(n) else None
  {
    if n < 0 {
      DecimalDigits(-n);
      AtoiNegative(Decimal(-n));
    } else {
      DecimalDigits(n);
      AtoiDigits(Decimal(n));
    }
  }

  lemma ReferenceWord(n: int)
    requires -0x8000_0000_0000_0000 <= n < 0x8000_0000_0000_0000
    ensures |ReferenceTo(n)| > 8 && OnlyAtStart(ReferenceTo(n), "&gt;&gt;") && ReferenceTo(n)[8..] == Decimal(n)
  {
    var number := Decimal(n);
    var word := ReferenceTo(n);
    DecimalIsPlain(n);
    assert word[..8] == "&gt;&gt;" && word[8..] == number;
    forall i | 8 <= i < |word| ensures word[i] != '&' {
      NumberHasNoMark(n);
      assert word[i] == number[i - 8];
    }
    forall i | 1 <= i <= |word| ensures !IsAt(word, "&gt;&gt;", i) {
      if i <= |word| - 8 {
        assert word[i..i + 8][0] == word[i] && word[i..i + 8][4] == word[i + 4];
      }
    }
  }

  lemma {:induction false} NumberHasNoMark(n: int)
    ensures forall i :: 0 <= i < |Decimal(n)| ==> Decimal(n)[i] != '&'
    decreases n < 0, if n < 0 then -n else n
  {
    if n < 0 {
      NumberHasNoMark(-n);
    } else if n >= 10 {
      NumberHasNoMark(n / 10);
    }
  }

  /** The word of a reference to the post `id`, and its link. */
  function ReferenceTo(id: int): string {
    "&gt;&gt;" + Decimal(id)
  }

  function LinkTo(env: Env, id: int): string
    requires env.lookup(id).Found?
  {
    Href(env, env.lookup(id).parent, env.lookup(id).dir, Decimal(id))
  }

  lemma ReferenceTokens(env: Env, id: int, base: string, first: bool)
    requires IsBaseOf(env, id, base)
    ensures WordTokens(env, ReferenceTo(id), first) == Success([Backlink(LinkTo(env, id), ReferenceTo(id))])
    ensures !IsGreentext([ReferenceTo(id)])
  {
    ReferenceWord(id);
    AtoiDecimal(id);
  }

  lemma LinkStart(env: Env, id: int, base: string)
    requires IsBaseOf(env, id, base)
    ensures var href := LinkTo(env, id); |href| > |base| && href[..|base|] == base && href[|base|] == '/'
  {
    var number := Decimal(id);
    var end := "/res/" + (Decimal(env.lookup(id).parent) + (".html#" + number));
    assert LinkTo(env, id) == base + end;
    assert end[0] == '/';
  }

  lemma ShortWord(env: Env, word: string, first: bool)
    requires |word| < 4
    ensures WordTokens(env, word, first) == Success(Chars(word))
    ensures !IsGreentext([word])
  {
  }

  lemma TwoWords(env: Env, words: seq<string>, a: seq<Token>, b: seq<Token>)
    requires |words| == 2 && !IsGreentext(words)
    requires WordTokens(env, words[0], true) == Success(a) && WordTokens(env, words[1], false) == Success(b)
    ensures LineTokens(env, words) == Success(a + [Char(' ')] + b)
  {
    assert words[..1] == [words[0]] && words[..1][..0] == [];
    assert JoinTokens(env, []) == Success([]);
    assert [] + [] + a == a;
    assert JoinTokens(env, words[..1]) == Success(a);
    assert a + [Char(' ')] + b + [] == a + [Char(' ')] + b;
  }

  ghost predicate LongSpans(m: Markup) {
    |m.hashtag| + |m.spanClose| > 2 && |m.nsfw| + |m.spanClose| > 2
  }

  lemma NotWhole(env: Env, words: seq<string>, tokens: seq<Token>, p: nat)
    requires LongSpans(env.markup) && LineTokens(env, words) == Success(tokens)
    requires forall i :: 0 <= i < |tokens| ==> !FrontMatch(tokens[i..])
    requires p <= |Render(env.markup, tokens)| && MatchesAtFront(Render(env.markup, tokens)[p..])
    ensures !TagsStayWhole(env, words)
  {
    NoMatchNoTags(env.markup, env.worksafe, tokens);
    MatchChangesText(env.markup, env.worksafe, Render(env.markup, tokens), p);
  }

  lemma MatchUpToClose(before: string, s: string, after: string, j: nat)
    requires j < |s| && s[j] == ']' && |before| == 4 && before == "[#a "
    ensures MatchesAtFront((before + (s + after))[0..])
  {
    var whole := before + (s + after);
    assert whole[0..] == whole;
    assert whole[4 + j] == ']';
  }

  /** With `]` in a link base, `[#a` before a reference to the post cuts its link in two. */
  lemma CloseCutsLink(env: Env, id: int, base: string)
    requires LongSpans(env.markup) && IsBaseOf(env, id, base) && !NoClose(base)
    ensures !TagsStayWhole(env, ["[#a", ReferenceTo(id)])
  {
    var word, href := ReferenceTo(id), LinkTo(env, id);
    var words := ["[#a", word];
    ShortWord(env, "[#a", true);
    ReferenceTokens(env, id, base, false);
    assert !IsGreentext(words);
    TwoWords(env, words, Chars("[#a"), [Backlink(href, word)]);
    LinkStart(env, id, base);
    var j :| 0 <= j < |base| && base[j] == ']';
    assert href[j] == href[..|base|][j];
    CloseLineMatches(env.markup, href, word, j);
    NotWhole(env, words, Chars("[#a") + [Char(' ')] + [Backlink(href, word)], 0);
  }

  lemma CloseLineMatches(m: Markup, href: string, word: string, j: nat)
    requires j < |href| && href[j] == ']'
    ensures var tokens := Chars("[#a") + [Char(' ')] + [Backlink(href, word)];
            MatchesAtFront(Render(m, tokens)[0..]) && forall i :: 0 <= i < |tokens| ==> !FrontMatch(tokens[i..])
  {
    var tokens := Chars("[#a") + [Char(' ')] + [Backlink(href, word)];
    RenderSpaced(m, Chars("[#a"), [Backlink(href, word)]);
    RenderChars(m, "[#a");
    RenderOne(m, Backlink(href, word));
    var link, after := m.anchor + href, m.anchorEnd + word + m.anchorClose;
    assert link[|m.anchor| + j] == ']';
    Assoc(link, m.anchorEnd, word);
    Assoc(link, m.anchorEnd + word, m.anchorClose);
    assert "[#a" + " " == "[#a ";
    assert Render(m, tokens) == "[#a " + (link + after);
    MatchUpToClose("[#a ", link, after, |m.anchor| + j);
    assert forall i :: 0 <= i < |tokens| ==> tokens[i] != Char(']');
  }

  lemma MatchFromOpen(before: string, s: string, after: string, j: nat)
    requires j + 2 < |s| && s[j] == '[' && s[j + 1] == '#' && s[j + 2] != ']'
    ensures MatchesAtFront((before + s + after + " " + "]")[|before| + j..])
  {
    var whole := before + s + after + " " + "]";
    var p := |before| + j;
    var tail := whole[p..];
    assert tail[0] == s[j] && tail[1] == s[j + 1] && tail[2] == s[j + 2];
    assert tail[|tail| - 1] == ']' && |tail| - 1 >= 3;
  }

  lemma Assoc(a: string, b: string, c: string)
    ensures (a + b) + c == a + (b + c)
  {
  }

  lemma LinkText(m: Markup, href: string, word: string)
    ensures Render(m, [Backlink(href, word)] + [Char(' ')] + Chars("]")) ==
            m.anchor + href + (m.anchorEnd + word + m.anchorClose) + " " + "]"
  {
    RenderSpaced(m, [Backlink(href, word)], Chars("]"));
    RenderChars(m, "]");
    RenderOne(m, Backlink(href, word));
    Assoc(m.anchor + href, m.anchorEnd, word);
    Assoc(m.anchor + href, m.anchorEnd + word, m.anchorClose);
  }

  lemma OpenLine(env: Env, id: int, base: string)
    requires IsBaseOf(env, id, base)
    ensures LineTokens(env, [ReferenceTo(id), "]"]) ==
              Success([Backlink(LinkTo(env, id), ReferenceTo(id))] + [Char(' ')] + Chars("]"))
  {
    var words := [ReferenceTo(id), "]"];
    ShortWord(env, "]", false);
    ReferenceTokens(env, id, base, true);
    assert !IsGreentext(words);
    TwoWords(env, words, [Backlink(LinkTo(env, id), ReferenceTo(id))], Chars("]"));
  }

  /** With `[#` in a link base, a later `]` in the line makes a hashtag out of the rest of the link. */
  lemma OpenCutsLink(env: Env, id: int, base: string)
    requires LongSpans(env.markup) && IsBaseOf(env, id, base) && NoClose(base) && !NoOpen(base)
    ensures !TagsStayWhole(env, [ReferenceTo(id), "]"])
  {
    var j :| 0 <= j < |base| - 1 && base[j] == '[' && base[j + 1] == '#';
    var href := LinkTo(env, id);
    assert j + 2 < |href| && href[j] == '[' && href[j + 1] == '#' && href[j + 2] != ']' by {
      LinkStart(env, id, base);
      OpenInHref(base, href, j);
    }
    OpenLine(env, id, base);
    OpenLineMatches(env.markup, href, ReferenceTo(id), j);
    NotWhole(env, [ReferenceTo(id), "]"], LineTokens(env, [ReferenceTo(id), "]"]).value, |env.markup.anchor| + j);
  }

  lemma OpenLineMatches(m: Markup, href: string, word: string, j: nat)
    requires j + 2 < |href| && href[j] == '[' && href[j + 1] == '#' && href[j + 2] != ']'
    ensures var tokens := [Backlink(href, word)] + [Char(' ')] + Chars("]");
            && |m.anchor| + j <= |Render(m, tokens)| && MatchesAtFront(Render(m, tokens)[|m.anchor| + j..])
            && forall i :: 0 <= i < |tokens| ==> !FrontMatch(tokens[i..])
  {
    LinkText(m, href, word);
    MatchFromOpen(m.anchor, href, m.anchorEnd + word + m.anchorClose, j);
    var tokens := [Backlink(href, word)] + [Char(' ')] + Chars("]");
    assert forall i :: 0 <= i < |tokens| ==> tokens[i] != Char('[');
  }

  lemma OpenInHref(base: string, href: string, j: nat)
    requires j + 1 < |base| && base[j] == '[' && base[j + 1] == '#' && NoClose(base)
    requires |href| > |base| && href[..|base|] == base && href[|base|] == '/'
    ensures j + 2 < |href| && href[j] == '[' && href[j + 1] == '#' && href[j + 2] != ']'
  {
    assert forall i :: 0 <= i < |base| ==> href[i] == base[i];
  }

  /** The inserted tags stay whole on every line exactly when no link base contains `]` or `[#`. */
  lemma TagsStayWholeIff(env: Env)
    requires env.markup == HTML
    ensures (forall words :: TagsStayWhole(env, words)) <==> UncutLinks(env)
  {
    HtmlIsSolid();
    if UncutLinks(env) {
      forall words ensures TagsStayWhole(env, words) {
        LinesStayWhole(env, words);
      }
    } else {
      assert LongSpans(HTML);
      var base :| IsLinkBase(env, base) && !Uncut(base);
      var id: int :| IsBaseOf(env, id, base);
      if NoClose(base) {
        OpenCutsLink(env, id, base);
      } else {
        CloseCutsLink(env, id, base);
      }
    }
  }
}
