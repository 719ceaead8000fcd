/** Substrings, as the Go package of the same name looks for them. */
module Strings {

  predicate IsAt(s: string, sub: string, i: int) {
    0 <= i <= |s| - |sub| && s[i..i + |sub|] == sub
  }

  /** `strings.Contains` */
  predicate HasSubstring(s: string, sub: string) {
    exists i :: 0 <= i <= |s| - |sub| && IsAt(s, sub, i)
  }

  /** `strings.ReplaceAll`: the leftmost matches, one after another; an empty string matches between all characters. */
  function ReplaceAll(s: string, from: string, to: string): string {
    if |from| == 0 then (if |s| == 0 then to else to + [s[0]] + ReplaceAll(s[1..], from, to))
    else if |s| < |from| then s
    else if IsAt(s, from, 0) then to + ReplaceAll(s[|from|..], from, to)
    else [s[0]] + ReplaceAll(s[1..], from, to)
  }

  lemma SubstringIsSlice(s: string, sub: string)
    ensures HasSubstring(s, sub) <==> exists i, j :: 0 <= i <= j <= |s| && s[i..j] == sub
  {
    if HasSubstring(s, sub) {
      var i :| 0 <= i <= |s| - |sub| && IsAt(s, sub, i);
      assert s[i..i + |sub|] == sub;
    }
    if i, j :| 0 <= i <= j <= |s| && s[i..j] == sub {
      assert IsAt(s, sub, i);
    }
  }

  lemma SubstringOfConcat(a: string, b: string, c: string, sub: string)
    requires HasSubstring(b, sub)
    ensures HasSubstring(a + b + c, sub)
  {
    var i :| 0 <= i <= |b| - |sub| && IsAt(b, sub, i);
    var s := a + b + c;
    var k := |a| + i;
    assert s[k..k + |sub|] == b[i..i + |sub|];
    assert IsAt(s, sub, k);
  }

  lemma SubstringOfRest(s: string, sub: string)
    requires |s| > 0 && |sub| > 0 && !IsAt(s, sub, 0)
    ensures HasSubstring(s, sub) <==> HasSubstring(s[1..], sub)
  {
    if HasSubstring(s, sub) {
      var i :| 0 <= i <= |s| - |sub| && IsAt(s, sub, i);
      assert s[1..][i - 1..i - 1 + |sub|] == s[i..i + |sub|];
      assert IsAt(s[1..], sub, i - 1);
    }
    if HasSubstring(s[1..], sub) {
      SubstringOfConcat([s[0]], s[1..], "", sub);
      assert [s[0]] + s[1..] + "" == s;
    }
  }

  /** Without a match nothing is replaced. */
  lemma {:induction false} ReplaceAbsent(s: string, from: string, to: string)
    requires |from| > 0 && !HasSubstring(s, from)
    ensures ReplaceAll(s, from, to) == s
  {
    if |s| >= |from| {
      if IsAt(s, from, 0) {
        assert HasSubstring(s, from);
      } else {
        SubstringOfRest(s, from);
        ReplaceAbsent(s[1..], from, to);
      }
    }
  }

  /** A replacement that contains what it replaces leaves a match wherever there was one. */
  lemma {:induction false} ReplaceKeepsMatch(s: string, from: string, to: string)
    requires |from| > 0 && HasSubstring(s, from) && HasSubstring(to, from)
    ensures HasSubstring(ReplaceAll(s, from, to), from)
  {
    if IsAt(s, from, 0) {
      SubstringOfConcat("", to, ReplaceAll(s[|from|..], from, to), from);
      assert "" + to + ReplaceAll(s[|from|..], from, to) == ReplaceAll(s, from, to);
    } else {
      SubstringOfRest(s, from);
      ReplaceKeepsMatch(s[1..], from, to);
      var rest := ReplaceAll(s[1..], from, to);
      SubstringOfConcat([s[0]], rest, "", from);
      assert [s[0]] + rest + "" == ReplaceAll(s, from, to);
    }
  }

  lemma SubstringOfOne(s: string, c: char)
    ensures HasSubstring(s, [c]) <==> c in s
  {
    if c in s {
      var i :| 0 <= i < |s| && s[i] == c;
      assert IsAt(s, [c], i);
    }
    if HasSubstring(s, [c]) {
      var i :| 0 <= i <= |s| - 1 && IsAt(s, [c], i);
      assert s[i..i + 1][0] == c;
    }
  }

  lemma {:induction false} ReplaceOne(s: string, c: char, to: string)
    ensures c in ReplaceAll(s, [c], to) <==> c in s && c in to
  {
    if |s| > 0 {
      ReplaceOne(s[1..], c, to);
      assert IsAt(s, [c], 0) <==> s[0] == c;
      assert s == [s[0]] + s[1..];
      assert c in s <==> c == s[0] || c in s[1..];
    }
  }

  // ---------------------------------------------------------------- pieces

  /** `strings.Join` */
  function Join(pieces: seq<string>, sep: string): string {
    if |pieces| == 0 then ""
    else if |pieces| == 1 then pieces[0]
    else Join(pieces[..|pieces| - 1], sep) + sep + pieces[|pieces| - 1]
  }

  /** The text before the first match, between the matches, and behind the last one. */
  function Split(s: string, from: string): (pieces: seq<string>)
    requires |from| > 0
    ensures |pieces| > 0
  {
    if |s| < |from| then [s]
    else if IsAt(s, from, 0) then [""] + Split(s[|from|..], from)
    else
      var rest := Split(s[1..], from);
      [[s[0]] + rest[0]] + rest[1..]
  }

  /** At every joint the next match of `from` is the first one from there on, and behind the last there is none. */
  ghost predicate Leftmost(pieces: seq<string>, from: string) {
    |pieces| > 0 ==>
      && (forall j: nat :: j < |pieces[0]| || |pieces| == 1 ==> !IsAt(Join(pieces, from), from, j))
      && Leftmost(pieces[1..], from)
  }

  lemma {:induction false} JoinFront(piece: string, pieces: seq<string>, sep: string)
    requires |pieces| > 0
    ensures Join([piece] + pieces, sep) == piece + sep + Join(pieces, sep)
  {
    var all := [piece] + pieces;
    if |pieces| == 1 {
      assert all[..1] == [piece];
    } else {
      var front := pieces[..|pieces| - 1];
      JoinFront(piece, front, sep);
      assert all[..|all| - 1] == [piece] + front;
    }
  }

  lemma JoinAppend(pieces: seq<string>, piece: string, sep: string)
    requires |pieces| > 0
    ensures Join(pieces + [piece], sep) == Join(pieces, sep) + sep + piece
  {
    assert (pieces + [piece])[..|pieces|] == pieces;
  }

  lemma JoinEmpty(pieces: seq<string>, sep: string)
    requires |pieces| > 0
    ensures Join([""] + pieces, sep) == sep + Join(pieces, sep)
  {
    JoinFront("", pieces, sep);
  }

  /** A character put before the first piece is put before the whole. */
  lemma JoinExtend(c: char, pieces: seq<string>, sep: string)
    requires |pieces| > 0
    ensures Join([[c] + pieces[0]] + pieces[1..], sep) == [c] + Join(pieces, sep)
  {
    assert pieces == [pieces[0]] + pieces[1..];
    if |pieces| == 1 {
      assert [[c] + pieces[0]] + pieces[1..] == [[c] + pieces[0]];
    } else {
      JoinFront(pieces[0], pieces[1..], sep);
      JoinFront([c] + pieces[0], pieces[1..], sep);
    }
  }

  lemma {:induction false} SplitJoins(s: string, from: string, to: string)
    requires |from| > 0
    ensures Join(Split(s, from), to) == ReplaceAll(s, from, to)
  {
    if |s| >= |from| {
      if IsAt(s, from, 0) {
        var rest := Split(s[|from|..], from);
        SplitJoins(s[|from|..], from, to);
        JoinEmpty(rest, to);
        assert Split(s, from) == [""] + rest;
      } else {
        var rest := Split(s[1..], from);
        SplitJoins(s[1..], from, to);
        JoinExtend(s[0], rest, to);
        assert Split(s, from) == [[s[0]] + rest[0]] + rest[1..];
      }
    }
  }

  lemma {:induction false} ReplaceItself(s: string, from: string)
    requires |from| > 0
    ensures ReplaceAll(s, from, from) == s
  {
    if |s| >= |from| {
      if IsAt(s, from, 0) {
        ReplaceItself(s[|from|..], from);
        assert s == from + s[|from|..];
      } else {
        ReplaceItself(s[1..], from);
      }
    }
  }

  lemma SplitParts(s: string, from: string)
    requires |from| > 0
    ensures Join(Split(s, from), from) == s
  {
    SplitJoins(s, from, from);
    ReplaceItself(s, from);
  }

  lemma MatchInRest(s: string, from: string, j: nat)
    requires 0 < j && |s| > 0
    ensures IsAt(s, from, j) <==> IsAt(s[1..], from, j - 1)
  {
    if j + |from| <= |s| {
      assert s[j..j + |from|] == s[1..][j - 1..j - 1 + |from|];
    }
  }

  lemma {:induction false} SplitLeftmost(s: string, from: string)
    requires |from| > 0
    ensures Leftmost(Split(s, from), from)
  {
    SplitParts(s, from);
    if |s| >= |from| {
      if IsAt(s, from, 0) {
        SplitLeftmost(s[|from|..], from);
        assert Split(s, from)[1..] == Split(s[|from|..], from);
      } else {
        SplitParts(s[1..], from);
        SplitLeftmost(s[1..], from);
        var pieces, rest := Split(s, from), Split(s[1..], from);
        assert pieces[1..] == rest[1..];
        forall j: nat | j < |pieces[0]| || |pieces| == 1 ensures !IsAt(s, from, j) {
          if j > 0 {
            MatchInRest(s, from, j);
          }
        }
      }
    }
  }

  /**
   Replacing all matches cuts the text at its matches, each of them the first one behind the match
   before it, and puts the replacement between the same pieces.
   */
  lemma ReplaceIsJoin(s: string, from: string, to: string)
    requires |from| > 0
    ensures exists pieces :: |pieces| > 0 && Join(pieces, from) == s && Leftmost(pieces, from)
                             && ReplaceAll(s, from, to) == Join(pieces, to)
  {
    SplitJoins(s, from, to);
    SplitParts(s, from);
    SplitLeftmost(s, from);
  }

  lemma FirstPiece(pieces: seq<string>, from: string)
    requires |from| > 0 && |pieces| > 0
    ensures |pieces| > 1 ==> Join(pieces, from) == pieces[0] + from + Join(pieces[1..], from)
    ensures |pieces| > 1 ==> IsAt(Join(pieces, from), from, |pieces[0]|)
  {
    if |pieces| > 1 {
      JoinFront(pieces[0], pieces[1..], from);
      assert pieces == [pieces[0]] + pieces[1..];
      var s := pieces[0] + from + Join(pieces[1..], from);
      assert s[|pieces[0]|..|pieces[0]| + |from|] == from;
    }
  }

  /** No text can be cut at its matches in two ways, so that says what the result is. */
  lemma {:induction false} PiecesUnique(a: seq<string>, b: seq<string>, from: string)
    requires |from| > 0 && |a| > 0 && |b| > 0
    requires Join(a, from) == Join(b, from) && Leftmost(a, from) && Leftmost(b, from)
    ensures a == b
    decreases |a|
  {
    FirstPiece(a, from);
    FirstPiece(b, from);
    if |a| > 1 && |b| > 1 {
      SamePiece(a[0], Join(a[1..], from), b[0], Join(b[1..], from), from);
      PiecesUnique(a[1..], b[1..], from);
      assert a == [a[0]] + a[1..] && b == [b[0]] + b[1..];
    }
  }

  lemma SamePiece(a: string, x: string, b: string, y: string, from: string)
    requires a + from + x == b + from + y && |a| == |b|
    ensures a == b && x == y
  {
    var s := a + from + x;
    assert a == s[..|a|] && b == (b + from + y)[..|a|];
    assert x == s[|a| + |from|..] && y == (b + from + y)[|a| + |from|..];
  }

  /** The characters of a text as texts. */
  function Singles(s: string): (r: seq<string>)
    ensures |r| == |s| && forall i :: 0 <= i < |r| ==> r[i] == [s[i]]
  {
    seq(|s|, i requires 0 <= i < |s| => [s[i]])
  }

  /** Replacing the empty string puts the replacement before, between and behind all characters. */
  lemma {:induction false} ReplaceEmpty(s: string, to: string)
    ensures ReplaceAll(s, "", to) == to + Join(Singles(s) + [""], to)
  {
    if |s| == 0 {
      assert Singles(s) + [""] == [""];
    } else {
      ReplaceEmpty(s[1..], to);
      var rest := Singles(s[1..]) + [""];
      JoinFront([s[0]], rest, to);
      assert Singles(s) + [""] == [[s[0]]] + rest;
      Regroup(to, [s[0]], to, Join(rest, to));
    }
  }

  lemma Regroup(a: string, b: string, c: string, d: string)
    ensures a + b + (c + d) == a + (b + c + d)
  {
  }
}
