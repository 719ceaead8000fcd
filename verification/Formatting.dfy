/**
 pkg/posting/formatting.go: `FormatMessage` puts markup into the lines of a message: a span around
 a line that starts with a quote mark, anchors around references to posts, and, on the text that
 results, spans around hashtags.
 */
module Formatting {
  import opened Wrappers
  import opened Strings

  /** What looking up a post in the database gives. */
  datatype Lookup = QueryError | NotFound | Found(parent: int, dir: string)

  /** The pieces of markup that are put into lines. */
  datatype Markup = Markup(anchor: string, anchorEnd: string, anchorClose: string, dead: string, deadClose: string,
                           green: string, hashtag: string, nsfw: string, spanClose: string)

  const HTML := Markup("<a href=\"", "\" class=\"postref\">", "</a>",
                       "<a href=\"javascript:;\">" + "<strike>", "</strike></a>",
                       "<span class=\"greentext\">", "<span class=\"hashtag\">", "<span class=\"hashtag nsfw\">",
                       "</span>")

  datatype Env = Env(markup: Markup, webRoot: string, worksafe: bool, lookup: int -> Lookup)

  datatype Error = UnableToGetTopPost | WorksafeBoard

  // ---------------------------------------------------------------- strings

  /** `strings.LastIndex(s, sub) == 0` */
  predicate OnlyAtStart(s: string, sub: string) {
    IsAt(s, sub, 0) && forall i :: 1 <= i <= |s| ==> !IsAt(s, sub, i)
  }

  predicate IsDigits(s: string) {
    forall i :: 0 <= i < |s| ==> '0' <= s[i] <= '9'
  }

  function DigitsValue(s: string): (n: int)
    requires IsDigits(s)
    ensures n >= 0
  {
    if |s| == 0 then 0 else 10 * DigitsValue(s[..|s| - 1]) + (s[|s| - 1] as int - '0' as int)
  }

  /** `strconv.Atoi` with 64-bit integers. */
  function Atoi(s: string): Option<int> {
    var signed := |s| > 0 && (s[0] == '-' || s[0] == '+');
    var digits := if signed then s[1..] else s;
    if |digits| == 0 || !IsDigits(digits) then None
    else
      var n: int := if signed && s[0] == '-' then -DigitsValue(digits) else DigitsValue(digits);
      if -0x8000_0000_0000_0000 <= n < 0x8000_0000_0000_0000 then Some(n) else None
  }

  /** The verb `%d`. */
  function Decimal(n: int): string
    decreases n < 0, if n < 0 then -n else n
  {
    if n < 0 then "-" + Decimal(-n)
    else if n < 10 then [('0' as int + n) as char]
    else Decimal(n / 10) + [('0' as int + n % 10) as char]
  }

  function ToLower(c: char): char {
    if 'A' <= c <= 'Z' then (c as int + 32) as char else c
  }

  /** `strings.ToLower(tag) == "#nsfw"` */
  predicate IsNsfw(tag: string) {
    |tag| == 5 && forall i :: 0 <= i < 5 ==> ToLower(tag[i]) == "#nsfw"[i]
  }

  // ---------------------------------------------------------------- hashtags, on text

  predicate HasClose(s: string, from: nat) {
    exists i :: from <= i < |s| && s[i] == ']'
  }

  /**
   Whether the expression for hashtags, `[#`, then one or more characters other than `]`, then `]`,
   matches at the front.
   */
  predicate MatchesAtFront(s: string) {
    |s| > 2 && s[0] == '[' && s[1] == '#' && s[2] != ']' && HasClose(s, 3)
  }

  function FirstClose(s: string, from: nat): (i: nat)
    requires HasClose(s, from)
    ensures from <= i < |s| && s[i] == ']' && forall j :: from <= j < i ==> s[j] != ']'
    decreases |s| - from
  {
    if s[from] == ']' then from else FirstClose(s, from + 1)
  }

  function SpanOpen(m: Markup, nsfw: bool): string {
    if nsfw then m.nsfw else m.hashtag
  }

  /** `hashTagRE.ReplaceAllStringFunc`: the leftmost matches, one after another. */
  function ReplaceTags(m: Markup, worksafe: bool, s: string): Result<string, Error> {
    if |s| == 0 then Success("")
    else if MatchesAtFront(s) then
      var e := FirstClose(s, 3);
      var tag := s[1..e];
      if IsNsfw(tag) && worksafe then Failure(WorksafeBoard)
      else
        var rest := ReplaceTags(m, worksafe, s[e + 1..]);
        if rest.Failure? then rest else Success(SpanOpen(m, IsNsfw(tag)) + tag + m.spanClose + rest.value)
    else
      var rest := ReplaceTags(m, worksafe, s[1..]);
      if rest.Failure? then rest else Success([s[0]] + rest.value)
  }

  // ---------------------------------------------------------------- lines as tokens

  /** A character of the message, or inserted markup; an anchor stands for its two tags and its text. */
  datatype Token =
    | Char(c: char)
    | Backlink(href: string, text: string)
    | DeadLink(text: string)
    | GreenOpen
    | GreenClose
    | TagOpen(nsfw: bool)
    | TagClose

  function Text(m: Markup, t: Token): string {
    match t
    case Char(c) => [c]
    case Backlink(href, text) => m.anchor + href + m.anchorEnd + text + m.anchorClose
    case DeadLink(text) => m.dead + text + m.deadClose
    case GreenOpen => m.green
    case GreenClose => m.spanClose
    case TagOpen(nsfw) => SpanOpen(m, nsfw)
    case TagClose => m.spanClose
  }

  function Flat(texts: seq<string>): string {
    if |texts| == 0 then "" else texts[0] + Flat(texts[1..])
  }

  function Texts(m: Markup, tokens: seq<Token>): (r: seq<string>)
    ensures |r| == |tokens| && forall i :: 0 <= i < |tokens| ==> r[i] == Text(m, tokens[i])
  {
    seq(|tokens|, i requires 0 <= i < |tokens| => Text(m, tokens[i]))
  }

  function Render(m: Markup, tokens: seq<Token>): string {
    Flat(Texts(m, tokens))
  }

  function Chars(s: string): (r: seq<Token>)
    ensures |r| == |s| && forall i :: 0 <= i < |s| ==> r[i] == Char(s[i])
  {
    seq(|s|, i requires 0 <= i < |s| => Char(s[i]))
  }

  function Href(env: Env, parent: int, dir: string, number: string): string {
    env.webRoot + dir + "/res/" + Decimal(parent) + ".html#" + number
  }

  /** What becomes of a word; `first` says whether it is the first of its line. */
  function WordTokens(env: Env, word: string, first: bool): Result<seq<Token>, Error> {
    if OnlyAtStart(word, "&gt;&gt;") then
      var id := Atoi(word[8..]);
      if id.None? then Success(Chars(word))
      else
        match env.lookup(id.value)
        case QueryError => Failure(UnableToGetTopPost)
        case NotFound => Success([DeadLink(word)])
        case Found(parent, dir) =>
          if parent == 0 then Success([DeadLink(word)])
          else Success([Backlink(Href(env, parent, dir, word[8..]), word)])
    else if first && IsAt(word, "&gt;", 0) then Success([GreenOpen] + Chars(word))
    else Success(Chars(word))
  }

  predicate IsGreentext(words: seq<string>) {
    |words| > 0 && !OnlyAtStart(words[0], "&gt;&gt;") && IsAt(words[0], "&gt;", 0)
  }

  /** The words joined with spaces. */
  function JoinTokens(env: Env, words: seq<string>): Result<seq<Token>, Error> {
    if |words| == 0 then Success([])
    else
      var last := |words| - 1;
      var front := JoinTokens(env, words[..last]);
      if front.Failure? then front
      else
        var word := WordTokens(env, words[last], last == 0);
        if word.Failure? then word
        else Success(front.value + (if last == 0 then [] else [Char(' ')]) + word.value)
  }

  /** A line before its hashtags are looked for. */
  function LineTokens(env: Env, words: seq<string>): Result<seq<Token>, Error> {
    var line := JoinTokens(env, words);
    if line.Failure? then line else Success(line.value + if IsGreentext(words) then [GreenClose] else [])
  }

  // ---------------------------------------------------------------- the code

  /** The body of the word loop of `FormatMessage`: the word's new text, and whether it starts greentext. */
  method FormatWord(env: Env, word: string, first: bool) returns (r: Result<(string, bool), Error>)
    ensures var tokens := WordTokens(env, word, first);
            if tokens.Failure? then r == Failure(tokens.error)
            else r == Success((Render(env.markup, tokens.value), first && IsGreentext([word])))
  {
    var text := word;
    var isGreentext := false;
    if OnlyAtStart(word, "&gt;&gt;") {
      var postID := Atoi(word[8..]);
      if postID.Some? {
        var found := env.lookup(postID.value);
        if found.QueryError? {
          return Failure(UnableToGetTopPost);
        }
        if found.NotFound? || found.parent == 0 {
          text := env.markup.dead + word + env.markup.deadClose;
        } else {
          text := env.markup.anchor + Href(env, found.parent, found.dir, word[8..]) + env.markup.anchorEnd + word
              + env.markup.anchorClose;
        }
      }
    } else if IsAt(word, "&gt;", 0) && first {
      isGreentext := true;
      text := env.markup.green + word;
    }
    WordText(env, word, first);
    return Success((text, isGreentext));
  }

  /** The word loop of `FormatMessage`, which overwrites the words of a line, and whether it found greentext. */
  method FormatWords(env: Env, words: seq<string>) returns (r: Result<(seq<string>, bool), Error>)
    ensures var tokens := LineTokens(env, words);
            if tokens.Failure? then r == Failure(tokens.error)
            else r.Success? && Joined(env, words, r.value.0) && r.value.1 == IsGreentext(words)
  {
    var lineWords := words;
    var isGreentext := false;
    assert words[..0] == [] && lineWords[..0] == [];
    for w := 0 to |words|
      invariant isGreentext == (w > 0 && IsGreentext(words))
      invariant |lineWords| == |words| && lineWords[w..] == words[w..]
      invariant Joined(env, words[..w], lineWords[..w])
    {
      assert lineWords[w] == lineWords[w..][0] == words[w];
      var word := FormatWord(env, lineWords[w], w == 0);
      if word.Failure? {
        JoinFails(env, words, w);
        return Failure(word.error);
      }
      if word.value.1 {
        isGreentext := true;
      }
      var before := lineWords[..w];
      lineWords := lineWords[w := word.value.0];
      assert lineWords[..w + 1] == before + [word.value.0];
      JoinStep(env, words, w, before, word.value.0);
    }
    assert words[..|words|] == words && lineWords[..|words|] == lineWords;
    return Success((lineWords, isGreentext));
  }

  /** One round of the loop of `FormatMessage`, on a line that is trimmed and split at its spaces. */
  method FormatLine(env: Env, words: seq<string>) returns (r: Result<string, Error>)
    ensures var tokens := LineTokens(env, words);
            r == if tokens.Failure? then Failure(tokens.error)
                else ReplaceTags(env.markup, env.worksafe, Render(env.markup, tokens.value))
  {
    var formatted := FormatWords(env, words);
    if formatted.Failure? {
      return Failure(formatted.error);
    }
    var line := Join(formatted.value.0, " ");
    CloseGreentext(env.markup, JoinTokens(env, words).value);
    if formatted.value.1 {
      line := line + env.markup.spanClose;
    }
    r := ReplaceTags(env.markup, env.worksafe, line);
  }

  /** `texts` are the words with their markup. */
  ghost predicate Joined(env: Env, words: seq<string>, texts: seq<string>) {
    JoinTokens(env, words).Success? && Render(env.markup, JoinTokens(env, words).value) == Join(texts, " ")
  }

  lemma CloseGreentext(m: Markup, tokens: seq<Token>)
    ensures Render(m, tokens + [GreenClose]) == Render(m, tokens) + m.spanClose
    ensures tokens + [] == tokens
  {
    RenderConcat(m, tokens, [GreenClose]);
    RenderOne(m, GreenClose);
  }

  lemma WordText(env: Env, word: string, first: bool)
    requires WordTokens(env, word, first).Success?
    ensures Render(env.markup, WordTokens(env, word, first).value) ==
              if OnlyAtStart(word, "&gt;&gt;") && Atoi(word[8..]).Some? then
                var found := env.lookup(Atoi(word[8..]).value);
                if found.NotFound? || found.parent == 0
                then env.markup.dead + word + env.markup.deadClose
                else env.markup.anchor + Href(env, found.parent, found.dir, word[8..])
                     + env.markup.anchorEnd + word + env.markup.anchorClose
              else if !OnlyAtStart(word, "&gt;&gt;") && first && IsAt(word, "&gt;", 0)
              then env.markup.green + word
              else word
  {
    RenderChars(env.markup, word);
    var tokens := WordTokens(env, word, first).value;
    if tokens != Chars(word) {
      if tokens[0].GreenOpen? {
        RenderConcat(env.markup, [GreenOpen], Chars(word));
        RenderOne(env.markup, GreenOpen);
      } else {
        RenderOne(env.markup, tokens[0]);
      }
    }
  }

  lemma RenderOne(m: Markup, t: Token)
    ensures Render(m, [t]) == Text(m, t)
  {
    var text := Text(m, t);
    assert Texts(m, [t]) == [text];
    FlatOne(text);
  }

  lemma FlatOne(text: string)
    ensures Flat([text]) == text
  {
    assert [text][1..] == [];
    assert text + "" == text;
  }

  lemma RenderFirst(m: Markup, tokens: seq<Token>)
    requires |tokens| > 0
    ensures Render(m, tokens) == Text(m, tokens[0]) + Render(m, tokens[1..])
  {
    assert Texts(m, tokens)[1..] == Texts(m, tokens[1..]);
  }

  lemma {:induction false} RenderChars(m: Markup, s: string)
    ensures Render(m, Chars(s)) == s
  {
    if |s| > 0 {
      RenderChars(m, s[1..]);
      RenderFirst(m, Chars(s));
      assert Chars(s)[1..] == Chars(s[1..]);
      assert s == [s[0]] + s[1..];
    }
  }

  lemma {:induction false} FlatConcat(a: seq<string>, b: seq<string>)
    ensures Flat(a + b) == Flat(a) + Flat(b)
  {
    if |a| == 0 {
      assert a + b == b;
    } else {
      var whole := a + b;
      assert whole[0] == a[0] && whole[1..] == a[1..] + b;
      FlatConcat(a[1..], b);
      Regroup(a[0], Flat(a[1..]), Flat(b));
    }
  }

  lemma Regroup(a: string, b: string, c: string)
    ensures a + (b + c) == (a + b) + c
  {
  }

  lemma RenderConcat(m: Markup, a: seq<Token>, b: seq<Token>)
    ensures Render(m, a + b) == Render(m, a) + Render(m, b)
  {
    FlatConcat(Texts(m, a), Texts(m, b));
    assert Texts(m, a + b) == Texts(m, a) + Texts(m, b);
  }

  lemma {:induction false} JoinFailure(env: Env, words: seq<string>, n: nat)
    requires n <= |words| && JoinTokens(env, words[..n]).Failure?
    ensures JoinTokens(env, words) == JoinTokens(env, words[..n])
    decreases |words|
  {
    if n == |words| {
      assert words[..n] == words;
    } else {
      var front := words[..|words| - 1];
      assert front[..n] == words[..n];
      JoinFailure(env, front, n);
    }
  }

  lemma JoinFails(env: Env, words: seq<string>, w: nat)
    requires w < |words| && JoinTokens(env, words[..w]).Success? && WordTokens(env, words[w], w == 0).Failure?
    ensures LineTokens(env, words) == Failure(WordTokens(env, words[w], w == 0).error)
  {
    assert words[..w + 1][..w] == words[..w];
    JoinFailure(env, words, w + 1);
  }

  lemma JoinStep(env: Env, words: seq<string>, w: nat, texts: seq<string>, text: string)
    requires w < |words| && |texts| == w && Joined(env, words[..w], texts)
    requires WordTokens(env, words[w], w == 0).Success?
    requires text == Render(env.markup, WordTokens(env, words[w], w == 0).value)
    ensures Joined(env, words[..w + 1], texts + [text])
  {
    assert words[..w + 1] == words[..w] + [words[w]];
    TokensAppend(env, words[..w], words[w]);
    if w == 0 {
      assert texts + [text] == [text];
    } else {
      RenderSpaced(env.markup, JoinTokens(env, words[..w]).value, WordTokens(env, words[w], false).value);
      JoinAppend(texts, text, " ");
    }
  }

  lemma TokensAppend(env: Env, words: seq<string>, word: string)
    requires JoinTokens(env, words).Success? && WordTokens(env, word, words == []).Success?
    ensures JoinTokens(env, words + [word]) ==
              var tokens := WordTokens(env, word, words == []).value;
              Success(if words == [] then tokens else JoinTokens(env, words).value + [Char(' ')] + tokens)
  {
    assert (words + [word])[..|words|] == words;
    if words == [] {
      var tokens := WordTokens(env, word, true).value;
      assert [] + [] + tokens == tokens;
    }
  }

  lemma RenderSpaced(m: Markup, a: seq<Token>, b: seq<Token>)
    ensures Render(m, a + [Char(' ')] + b) == Render(m, a) + " " + Render(m, b)
  {
    RenderConcat(m, a + [Char(' ')], b);
    RenderConcat(m, a, [Char(' ')]);
    RenderOne(m, Char(' '));
  }
}
