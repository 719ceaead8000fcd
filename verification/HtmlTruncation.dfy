/**
 pkg/gctemplates/misc.go: cutting a parsed message down to a number of bytes of text and a
 number of lines. A list of sibling nodes is a first-child/next-sibling tree, as in the Go
 library; strings are strings of bytes.
 */
module HtmlTruncation {

  /** Node types other than text: an element, or a comment, doctype, raw, error or document node. */
  datatype Kind = Element(name: string) | Other

  datatype Forest =
    | Empty
    | Text(data: string, next: Forest)
    | Tag(kind: Kind, kids: Forest, next: Forest)

  function Nodes(f: Forest): nat {
    match f
    case Empty => 0
    case Text(_, next) => 1 + Nodes(next)
    case Tag(_, kids, next) => 1 + Nodes(kids) + Nodes(next)
  }

  /** `strings.ToLower(node.Data) == "br"` */
  predicate IsBr(kind: Kind) {
    && kind.Element? && |kind.name| == 2
    && (kind.name[0] == 'b' || kind.name[0] == 'B')
    && (kind.name[1] == 'r' || kind.name[1] == 'R')
  }

  predicate Spent(chars: int, lines: int) {
    chars <= 0 || lines <= 0
  }

  /** The text left of `data`; the slice expression in it panics when `chars < 1`. */
  function Cut(data: string, chars: int): string
    requires |data| > chars ==> chars >= 1
  {
    if |data| > chars then data[..chars - 1] + "..." else data
  }

  datatype Outcome = Panic | Ok(kept: Forest, chars: int, lines: int)

  /** The node at the front of `f` once its later siblings are unlinked. */
  function Alone(f: Forest): (r: Forest)
    requires !f.Empty?
    ensures !r.Empty? && Nodes(r) <= Nodes(f)
  {
    f.(next := Empty)
  }

  /**
   `truncateHTMLNodes`. With a spent budget the node and its later siblings are unlinked, but the
   function does not return: it goes on with the unlinked node, whose next sibling is now nil.
   */
  function Run(f: Forest, chars: int, lines: int): Outcome
    decreases Nodes(f), 1
  {
    if f.Empty? then Ok(Empty, chars, lines)
    else if Spent(chars, lines) then
      var r := Visit(Alone(f), chars, lines);
      if r.Panic? then Panic else Ok(Empty, r.chars, r.lines)
    else Visit(f, chars, lines)
  }

  /** The switch on the type of the node, and the walk over its children and later siblings. */
  function Visit(f: Forest, chars: int, lines: int): Outcome
    requires !f.Empty?
    decreases Nodes(f), 0
  {
    match f
    case Text(data, next) =>
      if |data| > chars && chars < 1 then Panic
      else
        var cut := Cut(data, chars);
        var r := Run(next, chars - |cut|, lines);
        if r.Panic? then Panic else Ok(Text(cut, r.kept), r.chars, r.lines)
    case Tag(kind, kids, next) =>
      var k := Run(kids, chars, if IsBr(kind) then lines - 1 else lines);
      if k.Panic? then Panic
      else
        var r := Run(next, k.chars, k.lines);
        if r.Panic? then Panic else Ok(Tag(kind, k.kept, r.kept), r.chars, r.lines)
  }

  // ---------------------------------------------------------------- the walk that stops

  datatype Rest = Rest(kept: Forest, chars: int, lines: int)

  /** The walk as its comments describe it: with a spent budget it unlinks and returns at once. */
  function Stop(f: Forest, chars: int, lines: int): (r: Rest)
    ensures r.chars <= chars && r.lines <= lines
  {
    if f.Empty? || Spent(chars, lines) then Rest(Empty, chars, lines)
    else match f
      case Text(data, next) =>
        var cut := Cut(data, chars);
        var r := Stop(next, chars - |cut|, lines);
        Rest(Text(cut, r.kept), r.chars, r.lines)
      case Tag(kind, kids, next) =>
        var k := Stop(kids, chars, if IsBr(kind) then lines - 1 else lines);
        var r := Stop(next, k.chars, k.lines);
        Rest(Tag(kind, k.kept, r.kept), r.chars, r.lines)
  }

  /** What is left visible does not depend on the nodes visited after they were unlinked. */
  lemma {:induction false} RunKeepsWhatStopKeeps(f: Forest, chars: int, lines: int)
    requires Run(f, chars, lines).Ok?
    ensures var run, stop := Run(f, chars, lines), Stop(f, chars, lines);
            && run.kept == stop.kept
            && run.chars <= chars && run.lines <= lines
            && Spent(run.chars, run.lines) == Spent(stop.chars, stop.lines)
            && (!Spent(stop.chars, stop.lines) ==> run.chars == stop.chars && run.lines == stop.lines)
    decreases Nodes(f)
  {
    var spent := Spent(chars, lines);
    match f
    case Empty =>
    case Text(data, next) =>
      RunKeepsWhatStopKeeps(if spent then Empty else next, chars - |Cut(data, chars)|, lines);
    case Tag(kind, kids, next) =>
      var lines' := if IsBr(kind) then lines - 1 else lines;
      RunKeepsWhatStopKeeps(kids, chars, lines');
      var k := Run(kids, chars, lines');
      RunKeepsWhatStopKeeps(if spent then Empty else next, k.chars, k.lines);
  }

  /** The first text on the leftmost branch of the first node, if that branch ends in a text. */
  function LeadingText(f: Forest): seq<string> {
    match f
    case Empty => []
    case Text(data, _) => [data]
    case Tag(_, kids, _) => LeadingText(kids)
  }

  /** The leading texts of the first node cut off at each level, innermost level first. */
  function CutTexts(f: Forest, chars: int, lines: int): seq<string> {
    if Spent(chars, lines) then LeadingText(f)
    else match f
      case Empty => []
      case Text(data, next) => CutTexts(next, chars - |Cut(data, chars)|, lines)
      case Tag(kind, kids, next) =>
        var lines' := if IsBr(kind) then lines - 1 else lines;
        var k := Stop(kids, chars, lines');
        CutTexts(kids, chars, lines') + CutTexts(next, k.chars, k.lines)
  }

  /** Charging the texts to the budget in turn, one of them meets a budget of 0 or less that it exceeds. */
  predicate Overdraws(texts: seq<string>, chars: int) {
    |texts| > 0 && ((|texts[0]| > chars && chars < 1) || Overdraws(texts[1..], chars - |Cut(texts[0], chars)|))
  }

  function Charge(texts: seq<string>, chars: int): int
    requires !Overdraws(texts, chars)
  {
    if |texts| == 0 then chars else Charge(texts[1..], chars - |Cut(texts[0], chars)|)
  }

  lemma {:induction false} OverdrawsConcat(a: seq<string>, b: seq<string>, chars: int)
    ensures Overdraws(a + b, chars) <==> Overdraws(a, chars) || Overdraws(b, Charge(a, chars))
    ensures !Overdraws(a + b, chars) ==> Charge(a + b, chars) == Charge(b, Charge(a, chars))
  {
    if |a| == 0 {
      assert a + b == b;
    } else {
      assert (a + b)[1..] == a[1..] + b;
      if !(|a[0]| > chars && chars < 1) {
        OverdrawsConcat(a[1..], b, chars - |Cut(a[0], chars)|);
      }
    }
  }

  lemma {:induction false} RunSpent(f: Forest, chars: int, lines: int)
    requires Spent(chars, lines)
    ensures Run(f, chars, lines).Panic? <==> Overdraws(LeadingText(f), chars)
    ensures Run(f, chars, lines).Ok? ==> Run(f, chars, lines).chars == Charge(LeadingText(f), chars)
  {
    match f
    case Empty =>
    case Text(data, next) =>
      assert LeadingText(f)[1..] == [];
      if !Overdraws([data], chars) {
        assert Run(Empty, chars - |Cut(data, chars)|, lines).Ok?;
        assert Visit(Alone(f), chars, lines).chars == chars - |Cut(data, chars)|;
      }
    case Tag(kind, kids, next) =>
      var lines' := if IsBr(kind) then lines - 1 else lines;
      RunSpent(kids, chars, lines');
      var k := Run(kids, chars, lines');
      assert k.Ok? ==> Run(Empty, k.chars, k.lines) == Ok(Empty, k.chars, k.lines);
      assert Visit(Alone(f), chars, lines) == if k.Panic? then Panic
          else Ok(Tag(kind, k.kept, Empty), k.chars, k.lines);
  }

  lemma {:induction false} NothingCut(f: Forest, chars: int, lines: int)
    requires !Spent(Stop(f, chars, lines).chars, Stop(f, chars, lines).lines)
    ensures CutTexts(f, chars, lines) == []
  {
    if !Spent(chars, lines) {
      match f
      case Empty =>
      case Text(data, next) => NothingCut(next, chars - |Cut(data, chars)|, lines);
      case Tag(kind, kids, next) =>
        var lines' := if IsBr(kind) then lines - 1 else lines;
        var k := Stop(kids, chars, lines');
        NothingCut(kids, chars, lines');
        NothingCut(next, k.chars, k.lines);
    }
  }

  /**
   Exactly when the walk panics: when the first nodes cut off, one for each level still open, lead
   with texts that overdraw what was left of the budget at the cut.
   */
  lemma {:induction false} PanicsIffOverdrawn(f: Forest, chars: int, lines: int)
    ensures Run(f, chars, lines).Panic? <==> Overdraws(CutTexts(f, chars, lines), Stop(f, chars, lines).chars)
    ensures Run(f, chars, lines).Ok? ==>
              Run(f, chars, lines).chars == Charge(CutTexts(f, chars, lines), Stop(f, chars, lines).chars)
  {
    if Spent(chars, lines) {
      RunSpent(f, chars, lines);
    } else {
      match f
      case Empty =>
      case Text(data, next) =>
        PanicsIffOverdrawn(next, chars - |Cut(data, chars)|, lines);
      case Tag(kind, kids, next) =>
        var lines' := if IsBr(kind) then lines - 1 else lines;
        var k := Stop(kids, chars, lines');
        PanicsIffOverdrawn(kids, chars, lines');
        if Run(kids, chars, lines').Ok? {
          RunKeepsWhatStopKeeps(kids, chars, lines');
          var r := Run(kids, chars, lines');
          if Spent(k.chars, k.lines) {
            RunSpent(next, r.chars, r.lines);
          } else {
            NothingCut(kids, chars, lines');
            PanicsIffOverdrawn(next, k.chars, k.lines);
          }
        } else if !Spent(k.chars, k.lines) {
          NothingCut(kids, chars, lines');
        }
        OverdrawsConcat(CutTexts(kids, chars, lines'), CutTexts(next, k.chars, k.lines),
            Stop(next, k.chars, k.lines).chars);
    }
  }

  /** Two texts in a row at different levels, as in `<b>aaaa</b>` followed by `bbb`, with a limit of 2, panic. */
  lemma PanicExample()
    ensures Run(Tag(Element("b"), Text("aaaa", Empty), Text("bbb", Empty)), 2, 10) == Panic
  {
    var bbb := Text("bbb", Empty);
    assert Run(Text("aaaa", Empty), 2, 10) == Ok(Text("a...", Empty), -2, 10) by {
      assert Cut("aaaa", 2) == "a...";
      assert Run(Empty, -2, 10) == Ok(Empty, -2, 10);
    }
    assert Run(bbb, -2, 10) == Panic;
  }

  // ---------------------------------------------------------------- document order

  /** A node in document order, with its depth. */
  datatype Entry = TextAt(depth: nat, data: string) | TagAt(depth: nat, kind: Kind)

  function Document(f: Forest, depth: nat): (r: seq<Entry>)
    ensures |r| == Nodes(f)
  {
    match f
    case Empty => []
    case Text(data, next) => [TextAt(depth, data)] + Document(next, depth)
    case Tag(kind, kids, next) => [TagAt(depth, kind)] + Document(kids, depth + 1) + Document(next, depth)
  }

  datatype Reading = Reading(kept: seq<Entry>, chars: int, lines: int)

  /** Reading one entry while there is budget left. */
  function Take(entry: Entry, chars: int, lines: int): (Entry, int, int)
    requires !Spent(chars, lines)
  {
    match entry
    case TextAt(d, data) => (TextAt(d, Cut(data, chars)), chars - |Cut(data, chars)|, lines)
    case TagAt(d, kind) => (entry, chars, if IsBr(kind) then lines - 1 else lines)
  }

  /** Reading a document from the front until a budget is spent, one entry after another. */
  function Scan(doc: seq<Entry>, chars: int, lines: int): (r: Reading)
    ensures |r.kept| <= |doc|
  {
    if |doc| == 0 || Spent(chars, lines) then Reading([], chars, lines)
    else
      var (entry, chars', lines') := Take(doc[0], chars, lines);
      var rest := Scan(doc[1..], chars', lines');
      Reading([entry] + rest.kept, rest.chars, rest.lines)
  }

  lemma {:induction false} ScanConcat(a: seq<Entry>, b: seq<Entry>, chars: int, lines: int)
    ensures var ra := Scan(a, chars, lines);
            var rb := Scan(b, ra.chars, ra.lines);
            Scan(a + b, chars, lines) == Reading(ra.kept + rb.kept, rb.chars, rb.lines)
  {
    if |a| == 0 {
      assert a + b == b;
    } else if !Spent(chars, lines) {
      assert (a + b)[0] == a[0] && (a + b)[1..] == a[1..] + b;
      var (entry, chars', lines') := Take(a[0], chars, lines);
      ScanConcat(a[1..], b, chars', lines');
    }
  }

  lemma ScanFirst(entry: Entry, doc: seq<Entry>, chars: int, lines: int)
    requires !Spent(chars, lines)
    ensures var (taken, chars', lines') := Take(entry, chars, lines);
            var rest := Scan(doc, chars', lines');
            Scan([entry] + doc, chars, lines) == Reading([taken] + rest.kept, rest.chars, rest.lines)
  {
    assert ([entry] + doc)[1..] == doc;
  }

  /** The recursive walk over the tree reads the document from the front. */
  lemma {:induction false} StopIsScan(f: Forest, depth: nat, chars: int, lines: int)
    ensures var stop := Stop(f, chars, lines);
            Scan(Document(f, depth), chars, lines) == Reading(Document(stop.kept, depth), stop.chars, stop.lines)
    decreases f
  {
    if !Spent(chars, lines) {
      match f
      case Empty =>
      case Text(data, next) =>
        StopIsScan(next, depth, chars - |Cut(data, chars)|, lines);
        ScanFirst(TextAt(depth, data), Document(next, depth), chars, lines);
      case Tag(kind, kids, next) =>
        var lines' := if IsBr(kind) then lines - 1 else lines;
        var k := Stop(kids, chars, lines');
        StopIsScan(kids, depth + 1, chars, lines');
        StopIsScan(next, depth, k.chars, k.lines);
        ScanConcat(Document(kids, depth + 1), Document(next, depth), chars, lines');
        TagDocument(kind, kids, next, depth);
        ScanFirst(TagAt(depth, kind), Document(kids, depth + 1) + Document(next, depth), chars, lines);
        TagDocument(kind, k.kept, Stop(next, k.chars, k.lines).kept, depth);
    }
  }

  lemma TagDocument(kind: Kind, kids: Forest, next: Forest, depth: nat)
    ensures Document(Tag(kind, kids, next), depth) ==
              [TagAt(depth, kind)] + (Document(kids, depth + 1) + Document(next, depth))
  {
  }

  lemma {:induction false} DepthsAtLeast(f: Forest, depth: nat)
    ensures forall i :: 0 <= i < |Document(f, depth)| ==> Document(f, depth)[i].depth >= depth
    ensures |Document(f, depth)| > 0 ==> Document(f, depth)[0].depth == depth
    decreases f
  {
    match f
    case Empty =>
    case Text(_, next) => DepthsAtLeast(next, depth);
    case Tag(_, kids, next) => DepthsAtLeast(kids, depth + 1); DepthsAtLeast(next, depth);
  }

  /** Depths separate a node's descendants from its later siblings. */
  lemma SplitByDepth(a: seq<Entry>, b: seq<Entry>, a': seq<Entry>, b': seq<Entry>, depth: nat)
    requires a + b == a' + b'
    requires forall i :: 0 <= i < |a| ==> a[i].depth > depth
    requires forall i :: 0 <= i < |a'| ==> a'[i].depth > depth
    requires |b| > 0 ==> b[0].depth == depth
    requires |b'| > 0 ==> b'[0].depth == depth
    ensures a == a' && b == b'
  {
    assert forall i :: 0 <= i < |a| ==> (a + b)[i] == a[i];
    assert forall i :: 0 <= i < |a'| ==> (a' + b')[i] == a'[i];
    assert |b| > 0 ==> (a + b)[|a|].depth == depth;
    assert |b'| > 0 ==> (a' + b')[|a'|].depth == depth;
    assert |a| == |a'|;
    assert a == (a + b)[..|a|] && a' == (a' + b')[..|a|];
    assert b == (a + b)[|a|..] && b' == (a' + b')[|a|..];
  }

  /** A document determines its tree, so statements about documents are statements about trees. */
  lemma {:induction false} DocumentInjective(f: Forest, g: Forest, depth: nat)
    requires Document(f, depth) == Document(g, depth)
    ensures f == g
    decreases f
  {
    var df, dg := Document(f, depth), Document(g, depth);
    if !f.Empty? && !g.Empty? {
      assert df[0] == dg[0];
      if f.Text? && g.Text? {
        assert df[1..] == Document(f.next, depth) && dg[1..] == Document(g.next, depth);
        DocumentInjective(f.next, g.next, depth);
      } else if f.Tag? && g.Tag? {
        TagDocument(f.kind, f.kids, f.next, depth);
        TagDocument(g.kind, g.kids, g.next, depth);
        assert df[1..] == dg[1..];
        DepthsAtLeast(f.kids, depth + 1);
        DepthsAtLeast(g.kids, depth + 1);
        DepthsAtLeast(f.next, depth);
        DepthsAtLeast(g.next, depth);
        SplitByDepth(Document(f.kids, depth + 1), Document(f.next, depth),
                     Document(g.kids, depth + 1), Document(g.next, depth), depth);
        DocumentInjective(f.kids, g.kids, depth + 1);
        DocumentInjective(f.next, g.next, depth);
      }
    }
  }

  // ---------------------------------------------------------------- results

  function TextBytes(doc: seq<Entry>): nat {
    if |doc| == 0 then 0
    else (if doc[0].TextAt? then |doc[0].data| else 0) + TextBytes(doc[1..])
  }

  function Breaks(doc: seq<Entry>): nat {
    if |doc| == 0 then 0
    else (if doc[0].TagAt? && IsBr(doc[0].kind) then 1 else 0) + Breaks(doc[1..])
  }

  /** `kept` is the start of `doc`; only its last entry may differ, by having its text cut. */
  ghost predicate IsCutPrefix(kept: seq<Entry>, doc: seq<Entry>) {
    && |kept| <= |doc|
    && (forall i :: 0 <= i < |kept| - 1 ==> kept[i] == doc[i])
    && (|kept| > 0 ==>
          var last := |kept| - 1;
          || kept[last] == doc[last]
          || (&& kept[last].TextAt? && doc[last].TextAt? && kept[last].depth == doc[last].depth
              && exists m :: 0 <= m < |doc[last].data| && kept[last].data == doc[last].data[..m] + "..."))
  }

  lemma {:induction false} ScanIsPrefix(doc: seq<Entry>, chars: int, lines: int)
    ensures IsCutPrefix(Scan(doc, chars, lines).kept, doc)
    ensures |Scan(doc, chars, lines).kept| < |doc| ==>
              Spent(Scan(doc, chars, lines).chars, Scan(doc, chars, lines).lines)
  {
    if |doc| > 0 && !Spent(chars, lines) {
      var (entry, chars', lines') := Take(doc[0], chars, lines);
      ScanIsPrefix(doc[1..], chars', lines');
      TakeIsCut(doc[0], doc[1..], chars, lines);
    }
  }

  /** An entry is taken unchanged unless it is the last one read. */
  lemma TakeIsCut(entry: Entry, doc: seq<Entry>, chars: int, lines: int)
    requires !Spent(chars, lines)
    ensures var (taken, chars', lines') := Take(entry, chars, lines);
            || taken == entry
            || (&& Scan(doc, chars', lines').kept == []
                && taken.TextAt? && entry.TextAt? && taken.depth == entry.depth
                && exists m :: 0 <= m < |entry.data| && taken.data == entry.data[..m] + "...")
  {
    if entry.TextAt? && |entry.data| > chars {
      assert Cut(entry.data, chars) == entry.data[..chars - 1] + "...";
    }
  }

  lemma {:induction false} ScanWithinBudget(doc: seq<Entry>, chars: int, lines: int)
    ensures TextBytes(Scan(doc, chars, lines).kept) <= if chars >= 1 then chars + 2 else 0
    ensures Breaks(Scan(doc, chars, lines).kept) <= if lines >= 1 then lines else 0
  {
    if |doc| > 0 && !Spent(chars, lines) {
      var (entry, chars', lines') := Take(doc[0], chars, lines);
      ScanWithinBudget(doc[1..], chars', lines');
      assert Scan(doc, chars, lines).kept[1..] == Scan(doc[1..], chars', lines').kept;
    }
  }

  lemma {:induction false} ScanUnderBudget(doc: seq<Entry>, chars: int, lines: int)
    requires TextBytes(doc) < chars && Breaks(doc) < lines
    ensures Scan(doc, chars, lines) == Reading(doc, chars - TextBytes(doc), lines - Breaks(doc))
  {
    if |doc| > 0 {
      match doc[0]
      case TextAt(d, data) => ScanUnderBudget(doc[1..], chars - |data|, lines);
      case TagAt(d, kind) => ScanUnderBudget(doc[1..], chars, if IsBr(kind) then lines - 1 else lines);
      assert doc == [doc[0]] + doc[1..];
    }
  }

  /** Which elements count as line breaks. */
  lemma BreakNames(name: string)
    ensures IsBr(Element(name)) <==> name in ["br", "bR", "Br", "BR"]
    ensures !IsBr(Other)
  {
    if IsBr(Element(name)) {
      assert name == [name[0], name[1]];
    }
  }

  /**
   `kept` is the longest start of `doc` before each of whose entries the text read is under `chars`
   and the breaks are under `lines`; if its text is more than `chars`, the last text is cut to one
   byte less than was left, and three dots.
   */
  ghost predicate IsTruncation(kept: seq<Entry>, doc: seq<Entry>, chars: int, lines: int) {
    var k := |kept|;
    && k <= |doc|
    && (forall j :: 0 <= j < k ==> TextBytes(doc[..j]) < chars && Breaks(doc[..j]) < lines)
    && (k < |doc| ==> TextBytes(doc[..k]) >= chars || Breaks(doc[..k]) >= lines)
    && (k == 0 || TextBytes(doc[..k]) <= chars ==> kept == doc[..k])
    && (k > 0 && TextBytes(doc[..k]) > chars ==>
          var left := chars - TextBytes(doc[..k - 1]);
          && doc[k - 1].TextAt? && 0 < left < |doc[k - 1].data|
          && kept == doc[..k - 1] + [TextAt(doc[k - 1].depth, doc[k - 1].data[..left - 1] + "...")])
  }

  lemma CountsFrom(doc: seq<Entry>, j: nat)
    requires 0 < j <= |doc|
    ensures TextBytes(doc[..j]) == TextBytes([doc[0]]) + TextBytes(doc[1..][..j - 1])
    ensures Breaks(doc[..j]) == Breaks([doc[0]]) + Breaks(doc[1..][..j - 1])
  {
    assert doc[..j][1..] == doc[1..][..j - 1];
    assert [doc[0]][1..] == [];
  }

  /** How a truncation of the entries behind the first one extends to it. */
  lemma TruncationFirst(entry: Entry, kept: seq<Entry>, doc: seq<Entry>, chars: int, lines: int)
    requires |doc| > 0 && 0 < chars && 0 < lines
    requires entry == doc[0] && TextBytes([entry]) <= chars
    requires IsTruncation(kept, doc[1..], chars - TextBytes([entry]), lines - Breaks([entry]))
    ensures IsTruncation([entry] + kept, doc, chars, lines)
  {
    var k := |kept| + 1;
    forall j | 0 < j <= |doc|
      ensures TextBytes(doc[..j]) == TextBytes([entry]) + TextBytes(doc[1..][..j - 1])
      ensures Breaks(doc[..j]) == Breaks([entry]) + Breaks(doc[1..][..j - 1])
    {
      CountsFrom(doc, j);
    }
    assert TextBytes(doc[..0]) == 0 && Breaks(doc[..0]) == 0;
    assert TextBytes(doc[1..][..0]) == 0;
    assert doc[..k] == [entry] + doc[1..][..k - 1];
    if k > 1 {
      assert doc[..k - 1] == [entry] + doc[1..][..k - 2] && doc[k - 1] == doc[1..][k - 2];
    }
  }

  /** A first text that is more than is left is cut, and nothing behind it is kept. */
  lemma TruncationCut(doc: seq<Entry>, chars: int, lines: int)
    requires |doc| > 0 && 0 < chars && 0 < lines && doc[0].TextAt? && |doc[0].data| > chars
    ensures IsTruncation([TextAt(doc[0].depth, doc[0].data[..chars - 1] + "...")], doc, chars, lines)
  {
    assert doc[..1] == [doc[0]] && [doc[0]][1..] == [] && doc[..0] == [];
    assert TextBytes(doc[..1]) == |doc[0].data|;
  }

  /** What is left of the budgets is what the kept entries have not used. */
  lemma {:induction false} ScanCharges(doc: seq<Entry>, chars: int, lines: int)
    ensures var r := Scan(doc, chars, lines);
            r.chars == chars - TextBytes(r.kept) && r.lines == lines - Breaks(r.kept)
  {
    if |doc| > 0 && !Spent(chars, lines) {
      var (entry, chars', lines') := Take(doc[0], chars, lines);
      ScanCharges(doc[1..], chars', lines');
      assert Scan(doc, chars, lines).kept[1..] == Scan(doc[1..], chars', lines').kept;
    }
  }

  lemma {:induction false} ScanIsTruncation(doc: seq<Entry>, chars: int, lines: int)
    ensures IsTruncation(Scan(doc, chars, lines).kept, doc, chars, lines)
  {
    if |doc| == 0 || Spent(chars, lines) {
      assert TextBytes(doc[..0]) == 0 && Breaks(doc[..0]) == 0;
    } else {
      var (entry, chars', lines') := Take(doc[0], chars, lines);
      var rest := Scan(doc[1..], chars', lines').kept;
      if doc[0].TextAt? && |doc[0].data| > chars {
        assert [entry] + rest == [entry];
        TruncationCut(doc, chars, lines);
      } else {
        ScanIsTruncation(doc[1..], chars', lines');
        TakeCharges(doc[0], chars, lines);
        TruncationFirst(entry, rest, doc, chars, lines);
      }
    }
  }

  lemma TakeCharges(entry: Entry, chars: int, lines: int)
    requires !Spent(chars, lines) && !(entry.TextAt? && |entry.data| > chars)
    ensures Take(entry, chars, lines) == (entry, chars - TextBytes([entry]), lines - Breaks([entry]))
    ensures TextBytes([entry]) <= chars
  {
    assert [entry][1..] == [];
  }

  lemma {:induction false} BytesConcat(a: seq<Entry>, b: seq<Entry>)
    ensures TextBytes(a + b) == TextBytes(a) + TextBytes(b)
  {
    if |a| == 0 {
      assert a + b == b;
    } else {
      BytesConcat(a[1..], b);
      assert (a + b)[1..] == a[1..] + b;
    }
  }

  lemma NoLonger(a: seq<Entry>, b: seq<Entry>, doc: seq<Entry>, chars: int, lines: int)
    requires IsTruncation(a, doc, chars, lines) && IsTruncation(b, doc, chars, lines)
    ensures |a| >= |b|
  {
  }

  /** A document has one truncation. */
  lemma TruncationUnique(a: seq<Entry>, b: seq<Entry>, doc: seq<Entry>, chars: int, lines: int)
    requires IsTruncation(a, doc, chars, lines) && IsTruncation(b, doc, chars, lines)
    ensures a == b
  {
    NoLonger(a, b, doc, chars, lines);
    NoLonger(b, a, doc, chars, lines);
  }

  /** A truncation that cuts a text has two bytes more than the limit. */
  lemma CutTruncation(kept: seq<Entry>, doc: seq<Entry>, chars: int, lines: int)
    requires IsTruncation(kept, doc, chars, lines) && kept != doc[..|kept|]
    ensures TextBytes(kept) == chars + 2
  {
    var k := |kept|;
    BytesConcat(doc[..k - 1], [kept[k - 1]]);
    assert [kept[k - 1]][1..] == [];
  }

  /**
   What a walk that does not panic leaves of any tree, for any limits: the truncation of its
   document, so every text is unchanged except possibly the last one; at most `chars + 2` bytes of
   text, exactly that many if a text is cut, and at most `lines` breaks.
   */
  lemma TruncationKeepsPrefix(f: Forest, chars: int, lines: int)
    requires Run(f, chars, lines).Ok?
    ensures var kept := Document(Run(f, chars, lines).kept, 0);
            && IsTruncation(kept, Document(f, 0), chars, lines)
            && IsCutPrefix(kept, Document(f, 0))
            && (kept != Document(f, 0)[..|kept|] ==> TextBytes(kept) == chars + 2)
            && (|kept| < |Document(f, 0)| ==> Spent(Run(f, chars, lines).chars, Run(f, chars, lines).lines))
            && TextBytes(kept) <= (if chars >= 1 then chars + 2 else 0)
            && Breaks(kept) <= (if lines >= 1 then lines else 0)
  {
    RunKeepsWhatStopKeeps(f, chars, lines);
    StopIsScan(f, 0, chars, lines);
    ScanIsPrefix(Document(f, 0), chars, lines);
    ScanWithinBudget(Document(f, 0), chars, lines);
    ScanIsTruncation(Document(f, 0), chars, lines);
    var kept := Document(Run(f, chars, lines).kept, 0);
    if kept != Document(f, 0)[..|kept|] {
      CutTruncation(kept, Document(f, 0), chars, lines);
    }
  }

  /** A tree with text strictly under the limit and fewer breaks than lines comes back unchanged, without a panic. */
  lemma ShortMessagesUnchanged(f: Forest, chars: int, lines: int)
    requires TextBytes(Document(f, 0)) < chars && Breaks(Document(f, 0)) < lines
    ensures Run(f, chars, lines) == Ok(f, chars - TextBytes(Document(f, 0)), lines - Breaks(Document(f, 0)))
  {
    ScanUnderBudget(Document(f, 0), chars, lines);
    StopIsScan(f, 0, chars, lines);
    NothingCut(f, chars, lines);
    PanicsIffOverdrawn(f, chars, lines);
    RunKeepsWhatStopKeeps(f, chars, lines);
    DocumentInjective(Run(f, chars, lines).kept, f, 0);
  }
}
