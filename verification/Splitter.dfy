/** Splitting the body of a grouped import on its top-level commas. */
module Splitter {
  import opened Options
  import opened Sifting

  /** What Python's `str.strip` removes. */
  predicate IsSpace(c: char) {
    var n := c as int;
    || 9 <= n <= 13 || 28 <= n <= 32 || n == 0x85 || n == 0xA0 || n == 0x1680
    || 0x2000 <= n <= 0x200A || n == 0x2028 || n == 0x2029 || n == 0x202F || n == 0x205F || n == 0x3000
  }

  /** Among the ASCII characters that is the blank, the tab and the line breaks, and four separators. */
  lemma AsciiSpaces(c: char)
    requires c < 128 as char
    ensures IsSpace(c) <==> c in " \t\n\r" || c in ['\U{b}', '\U{c}', '\U{1c}', '\U{1d}', '\U{1e}', '\U{1f}']
  {
  }

  function LStrip(s: string): string {
    if s != [] && IsSpace(s[0]) then LStrip(s[1..]) else s
  }

  function RStrip(s: string): string {
    if s != [] && IsSpace(s[|s| - 1]) then RStrip(s[..|s| - 1]) else s
  }

  function Strip(s: string): string {
    RStrip(LStrip(s))
  }

  function Delta(c: char): int {
    if c == '{' then 1 else if c == '}' then -1 else 0
  }

  function Depth(s: string): int {
    if s == [] then 0 else Delta(s[0]) + Depth(s[1..])
  }

  /** No comma of `s` stands at depth zero when `s` starts at depth `d`. */
  predicate NoTopComma(s: string, d: int) {
    s == [] || (!(s[0] == ',' && d == 0) && NoTopComma(s[1..], d + Delta(s[0])))
  }

  /** Depth counts braces: the opening ones less the closing ones. */
  lemma {:induction false} DepthCounts(s: string)
    ensures Depth(s) == multiset(s)['{'] as int - multiset(s)['}'] as int
  {
    if s != [] {
      assert s == [s[0]] + s[1..];
      DepthCounts(s[1..]);
    }
  }

  /** A comma is at the top when as many braces were closed as opened before it. */
  lemma {:induction false} NoTopCommaIff(s: string, d: int)
    ensures NoTopComma(s, d) <==> forall i :: 0 <= i < |s| && s[i] == ',' ==> d + Depth(s[..i]) != 0
  {
    if s != [] {
      NoTopCommaIff(s[1..], d + Delta(s[0]));
      forall i | 1 <= i < |s| ensures Depth(s[..i]) == Delta(s[0]) + Depth(s[1..][..i - 1]) {
        assert s[..i][1..] == s[1..][..i - 1];
      }
      assert forall i :: 0 <= i < |s| - 1 ==> s[1..][i] == s[i + 1];
      if NoTopComma(s, d) {
        forall i | 0 <= i < |s| && s[i] == ',' ensures d + Depth(s[..i]) != 0 {
          if i > 0 {
            assert s[1..][i - 1] == ',';
          }
        }
      } else if !(s[0] == ',' && d == 0) {
        var j :| 0 <= j < |s[1..]| && s[1..][j] == ',' && d + Delta(s[0]) + Depth(s[1..][..j]) == 0;
        assert s[j + 1] == ',' && d + Depth(s[..j + 1]) == 0;
      } else {
        assert d + Depth(s[..0]) == 0;
      }
    }
  }

  /** The raw pieces between commas at depth zero, starting at depth `d`. */
  function Pieces(s: string, d: int): (r: seq<string>)
    ensures r != []
  {
    if s == [] then [""]
    else if s[0] == ',' && d == 0 then [""] + Pieces(s[1..], 0)
    else
      var r := Pieces(s[1..], d + Delta(s[0]));
      [[s[0]] + r[0]] + r[1..]
  }

  /** Strips every piece and forgets those of which nothing is left. */
  function Clean(pieces: seq<string>): seq<string> {
    if pieces == [] then []
    else (if Strip(pieces[0]) != [] then [Strip(pieces[0])] else []) + Clean(pieces[1..])
  }

  /** What stripping leaves of each piece, if anything. */
  ghost function Stripped(pieces: seq<string>): seq<Option<string>> {
    seq(|pieces|, i requires 0 <= i < |pieces| => if Strip(pieces[i]) == "" then None else Some(Strip(pieces[i])))
  }

  /** No piece is lost but those of white space alone, and the order is kept. */
  lemma {:induction false} CleanMeaning(pieces: seq<string>)
    ensures Clean(pieces) == Values(Stripped(pieces))
  {
    if pieces != [] {
      var x := if Strip(pieces[0]) == "" then None else Some(Strip(pieces[0]));
      assert Stripped(pieces) == [x] + Stripped(pieces[1..]);
      ValuesCons(x, Stripped(pieces[1..]));
      CleanMeaning(pieces[1..]);
    }
  }

  function Split(body: string): seq<string> {
    Clean(Pieces(body, 0))
  }

  function Join(items: seq<string>): string {
    if items == [] then [] else if |items| == 1 then items[0] else items[0] + "," + Join(items[1..])
  }

  lemma {:induction false} CleanSnocEmpty(pieces: seq<string>)
    ensures Clean(pieces + [""]) == Clean(pieces)
  {
    if pieces != [] {
      assert (pieces + [""])[1..] == pieces[1..] + [""];
      CleanSnocEmpty(pieces[1..]);
    }
  }

  /** The pieces already cut, with the piece under construction continued by the first of `r`. */
  ghost function Continue(parts: seq<string>, cur: string, r: seq<string>): seq<string>
    requires r != []
  {
    parts + [cur + r[0]] + r[1..]
  }

  lemma ContinueChar(parts: seq<string>, cur: string, ch: char, r: seq<string>)
    requires r != []
    ensures Continue(parts, cur, [[ch] + r[0]] + r[1..]) == Continue(parts, cur + [ch], r)
  {
    assert cur + ([ch] + r[0]) == cur + [ch] + r[0];
  }

  lemma ContinueComma(parts: seq<string>, cur: string, r: seq<string>)
    requires r != []
    ensures Continue(parts, cur, [""] + r) == Continue(parts + [cur], "", r)
  {
    assert cur + "" == cur;
    assert "" + r[0] == r[0];
    assert r == [r[0]] + r[1..];
  }

  lemma NextChar(parts: seq<string>, cur: string, body: string, k: nat, depth: int)
    requires k < |body|
    ensures Continue(parts, cur, Pieces(body[k..], depth)) ==
            if body[k] == ',' && depth == 0 then Continue(parts + [cur], "", Pieces(body[k + 1..], depth))
            else Continue(parts, cur + [body[k]], Pieces(body[k + 1..], depth + Delta(body[k])))
  {
    hide Continue;
    assert body[k..][1..] == body[k + 1..];
    if body[k] == ',' && depth == 0 {
      ContinueComma(parts, cur, Pieces(body[k + 1..], 0));
    } else {
      ContinueChar(parts, cur, body[k], Pieces(body[k + 1..], depth + Delta(body[k])));
    }
  }

  lemma StartAndEnd(body: string, parts: seq<string>, cur: string, depth: int)
    ensures Continue([], "", Pieces(body[0..], 0)) == Pieces(body, 0)
    ensures Continue(parts, cur, Pieces(body[|body|..], depth)) == parts + [cur]
  {
    var r := Pieces(body, 0);
    assert body[0..] == body && "" + r[0] == r[0];
    assert cur + "" == cur;
  }

  method SplitTopLevel(body: string) returns (items: seq<string>)
    ensures items == Split(body)
  {
    hide Pieces, Continue, Clean;
    var parts: seq<string> := [];
    var depth := 0;
    var cur := "";
    StartAndEnd(body, parts, cur, depth);
    for k := 0 to |body|
      invariant Pieces(body, 0) == Continue(parts, cur, Pieces(body[k..], depth))
    {
      var ch := body[k];
      NextChar(parts, cur, body, k, depth);
      if ch == '{' {
        depth := depth + 1;
        cur := cur + [ch];
      } else if ch == '}' {
        depth := depth - 1;
        cur := cur + [ch];
      } else if ch == ',' && depth == 0 {
        parts := parts + [cur];
        cur := "";
      } else {
        cur := cur + [ch];
      }
    }
    StartAndEnd(body, parts, cur, depth);
    if cur != [] {
      parts := parts + [cur];
    } else {
      CleanSnocEmpty(parts);
    }
    items := Clean(parts);
  }

  // ----- splitting undoes joining

  /** Pieces that can be told apart after joining: every comma is nested, and only the last one
      may leave braces open. */
  predicate Separable(pieces: seq<string>) {
    && (forall i :: 0 <= i < |pieces| ==> NoTopComma(pieces[i], 0))
    && (forall i :: 0 <= i < |pieces| - 1 ==> Depth(pieces[i]) == 0)
  }

  predicate Trimmed(pieces: seq<string>) {
    forall i :: 0 <= i < |pieces| ==> pieces[i] != [] && Strip(pieces[i]) == pieces[i]
  }

  lemma {:induction false} LastPiece(p: string, d: int)
    requires NoTopComma(p, d)
    ensures Pieces(p, d) == [p]
  {
    if p != [] {
      LastPiece(p[1..], d + Delta(p[0]));
      assert [p[0]] + p[1..] == p;
    }
  }

  lemma {:induction false} FirstPiece(p: string, d: int, rest: string)
    requires NoTopComma(p, d) && d + Depth(p) == 0
    ensures Pieces(p + "," + rest, d) == [p] + Pieces(rest, 0)
  {
    var s := p + "," + rest;
    if p == [] {
      assert s[1..] == rest;
    } else {
      assert s[1..] == p[1..] + "," + rest;
      FirstPiece(p[1..], d + Delta(p[0]), rest);
      assert [p[0]] + p[1..] == p;
      assert s[0] == p[0];
    }
  }

  lemma {:induction false} PiecesOfJoin(pieces: seq<string>)
    requires pieces != [] && Separable(pieces)
    ensures Pieces(Join(pieces), 0) == pieces
  {
    if |pieces| == 1 {
      LastPiece(pieces[0], 0);
    } else {
      var rest := pieces[1..];
      assert forall i :: 0 <= i < |rest| ==> rest[i] == pieces[i + 1];
      PiecesOfJoin(rest);
      FirstPiece(pieces[0], 0, Join(rest));
      assert pieces == [pieces[0]] + rest;
    }
  }

  /** Whatever white space the joined pieces carry, splitting gives them back cleaned. */
  lemma SplitOfJoin(pieces: seq<string>)
    requires Separable(pieces)
    ensures Split(Join(pieces)) == Clean(pieces)
  {
    if pieces != [] {
      PiecesOfJoin(pieces);
    }
  }

  lemma {:induction false} CleanTrimmed(pieces: seq<string>)
    requires Trimmed(pieces)
    ensures Clean(pieces) == pieces
  {
    if pieces != [] {
      CleanTrimmed(pieces[1..]);
    }
  }

  // ----- what comes out of splitting

  lemma JoinCons(p: string, rest: seq<string>)
    ensures Join([p] + rest) == if rest == [] then p else p + "," + Join(rest)
  {
    assert ([p] + rest)[1..] == rest;
  }

  lemma JoinGrows(c: char, r: seq<string>)
    requires r != []
    ensures Join([[c] + r[0]] + r[1..]) == [c] + Join(r)
  {
    hide Join;
    JoinCons([c] + r[0], r[1..]);
    JoinCons(r[0], r[1..]);
    assert [r[0]] + r[1..] == r;
    assert [c] + r[0] + "," + Join(r[1..]) == [c] + (r[0] + "," + Join(r[1..]));
  }

  /** No character is lost: the pieces joined again are the input. */
  lemma {:induction false} JoinOfPieces(s: string, d: int)
    ensures Join(Pieces(s, d)) == s
  {
    if s != [] {
      var top := s[0] == ',' && d == 0;
      var r := Pieces(s[1..], if top then 0 else d + Delta(s[0]));
      assert Pieces(s, d) == if top then [""] + r else [[s[0]] + r[0]] + r[1..];
      hide Pieces, Join;
      JoinOfPieces(s[1..], if top then 0 else d + Delta(s[0]));
      assert s == [s[0]] + s[1..];
      if top {
        JoinCons("", r);
      } else {
        JoinGrows(s[0], r);
      }
    }
  }

  lemma {:induction false} PiecesSeparable(s: string, d: int)
    ensures NoTopComma(Pieces(s, d)[0], d)
    ensures |Pieces(s, d)| > 1 ==> d + Depth(Pieces(s, d)[0]) == 0
    ensures Separable(Pieces(s, d)[1..])
  {
    if s != [] {
      PiecesSeparable(s[1..], if s[0] == ',' && d == 0 then 0 else d + Delta(s[0]));
      var r := Pieces(s[1..], if s[0] == ',' && d == 0 then 0 else d + Delta(s[0]));
      assert ([s[0]] + r[0])[1..] == r[0];
      if s[0] == ',' && d == 0 {
        assert Pieces(s, d)[1..] == r;
        forall i | 0 <= i < |r| ensures NoTopComma(r[i], 0) && (i < |r| - 1 ==> Depth(r[i]) == 0) {
          if i > 0 {
            assert r[i] == r[1..][i - 1];
          }
        }
      } else {
        assert Pieces(s, d)[1..] == r[1..];
      }
    }
  }

  lemma {:induction false} DepthConcat(a: string, b: string)
    ensures Depth(a + b) == Depth(a) + Depth(b)
  {
    if a == [] {
      assert a + b == b;
    } else {
      assert (a + b)[1..] == a[1..] + b;
      DepthConcat(a[1..], b);
    }
  }

  lemma {:induction false} NoTopCommaPrefix(a: string, b: string, d: int)
    requires NoTopComma(a + b, d)
    ensures NoTopComma(a, d)
  {
    if a != [] {
      assert (a + b)[1..] == a[1..] + b;
      NoTopCommaPrefix(a[1..], b, d + Delta(a[0]));
    }
  }

  lemma {:induction false} LStripKeeps(s: string, d: int)
    ensures Depth(LStrip(s)) == Depth(s)
    ensures NoTopComma(s, d) ==> NoTopComma(LStrip(s), d)
    ensures LStrip(s) == [] || !IsSpace(LStrip(s)[0])
  {
    if s != [] && IsSpace(s[0]) {
      LStripKeeps(s[1..], d);
    }
  }

  lemma {:induction false} RStripKeeps(s: string, d: int)
    ensures Depth(RStrip(s)) == Depth(s)
    ensures NoTopComma(s, d) ==> NoTopComma(RStrip(s), d)
    ensures RStrip(s) == [] || !IsSpace(RStrip(s)[|RStrip(s)| - 1])
    ensures RStrip(s) == [] || RStrip(s)[0] == s[0]
  {
    if s != [] && IsSpace(s[|s| - 1]) {
      var a, b := s[..|s| - 1], s[|s| - 1..];
      assert s == a + b && b[1..] == [];
      DepthConcat(a, b);
      assert Depth(b) == 0;
      if NoTopComma(s, d) {
        NoTopCommaPrefix(a, b, d);
      }
      RStripKeeps(a, d);
    }
  }

  lemma StripKeeps(s: string)
    ensures Depth(Strip(s)) == Depth(s)
    ensures NoTopComma(s, 0) ==> NoTopComma(Strip(s), 0)
    ensures Strip(Strip(s)) == Strip(s)
  {
    LStripKeeps(s, 0);
    RStripKeeps(LStrip(s), 0);
  }

  lemma {:induction false} LStripped(s: string) returns (a: string)
    ensures s == a + LStrip(s) && forall c :: c in a ==> IsSpace(c)
  {
    if s != [] && IsSpace(s[0]) {
      var rest := LStripped(s[1..]);
      a := [s[0]] + rest;
    } else {
      a := [];
    }
  }

  lemma {:induction false} RStripped(s: string) returns (b: string)
    ensures s == RStrip(s) + b && forall c :: c in b ==> IsSpace(c)
  {
    if s != [] && IsSpace(s[|s| - 1]) {
      var rest := RStripped(s[..|s| - 1]);
      b := rest + [s[|s| - 1]];
    } else {
      b := [];
    }
  }

  /** Stripping takes white space off both ends, and all of it. */
  lemma StripMeaning(s: string) returns (a: string, b: string)
    ensures s == a + Strip(s) + b && forall c :: c in a + b ==> IsSpace(c)
    ensures Strip(s) == [] || (!IsSpace(Strip(s)[0]) && !IsSpace(Strip(s)[|Strip(s)| - 1]))
  {
    a := LStripped(s);
    b := RStripped(LStrip(s));
    LStripKeeps(s, 0);
    RStripKeeps(LStrip(s), 0);
  }

  lemma {:induction false} CleanGood(pieces: seq<string>)
    requires Separable(pieces)
    ensures Separable(Clean(pieces)) && Trimmed(Clean(pieces))
  {
    if pieces != [] {
      StripKeeps(pieces[0]);
      CleanGood(pieces[1..]);
      if |pieces| == 1 {
        assert Clean(pieces[1..]) == [];
      }
    }
  }

  lemma AllPiecesSeparable(s: string)
    ensures Separable(Pieces(s, 0))
  {
    var r := Pieces(s, 0);
    PiecesSeparable(s, 0);
    forall i | 0 <= i < |r| ensures NoTopComma(r[i], 0) && (i < |r| - 1 ==> Depth(r[i]) == 0) {
      if i > 0 {
        assert r[i] == r[1..][i - 1];
      }
    }
  }

  /** The pieces are the one way to write the input as a join of pieces that can be told apart. */
  lemma PiecesIff(body: string, pieces: seq<string>)
    ensures Pieces(body, 0) == pieces <==> pieces != [] && Separable(pieces) && Join(pieces) == body
  {
    JoinOfPieces(body, 0);
    AllPiecesSeparable(body);
    if pieces != [] && Separable(pieces) {
      PiecesOfJoin(pieces);
    }
  }

  /** Whatever the input, the items that come out are trimmed, non-empty and separable. */
  lemma SplitGood(body: string)
    ensures Separable(Split(body)) && Trimmed(Split(body))
  {
    AllPiecesSeparable(body);
    CleanGood(Pieces(body, 0));
  }

  /** Splitting inverts joining on exactly these lists. */
  lemma SplitInvertsJoin(items: seq<string>)
    ensures Split(Join(items)) == items <==> Separable(items) && Trimmed(items)
  {
    if Separable(items) && Trimmed(items) {
      SplitOfJoin(items);
      CleanTrimmed(items);
    }
    SplitGood(Join(items));
  }

  /** Splitting, joining and splitting again changes nothing. */
  lemma SplitStable(body: string)
    ensures Split(Join(Split(body))) == Split(body)
  {
    SplitGood(body);
    SplitInvertsJoin(Split(body));
  }
}
