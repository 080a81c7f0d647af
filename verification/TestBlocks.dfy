/** Two line scanners that leave out test-only code, written independently of each other: one for
    the panic and swallowed-error budgets, one for the dependency analysis. */
module TestBlocks {
  import opened Options
  import opened Sifting

  /** What the scanners see of a line. `TestAttr` starts with `#[cfg(test)]`; `OtherTestAttr` is a
      test attribute only the budget scanner recognises; `Item` starts a module or function. */
  datatype Kind = TestAttr | OtherTestAttr | OtherAttr | Blank | Item | Code

  datatype Line = Line(kind: Kind, opens: nat, closes: nat)
  {
    function Delta(): int {
      opens - closes
    }
  }

  // ----- the budget scanner

  datatype BudgetState = BudgetState(skip: seq<int>, pending: bool)

  function SumOf(s: seq<int>): int {
    if s == [] then 0 else s[0] + SumOf(s[1..])
  }

  function BudgetStep(s: BudgetState, line: Line): (BudgetState, bool) {
    if SumOf(s.skip) == 0 then
      if s.pending && line.kind == Item then
        (BudgetState(if line.Delta() > 0 then s.skip + [line.Delta()] else s.skip, false), false)
      else
        var pending := s.pending && !line.kind.Item? && !line.kind.Code?;
        if line.kind == TestAttr || line.kind == OtherTestAttr then (BudgetState(s.skip, true), false)
        else (BudgetState(s.skip, pending), true)
    else if s.skip == [] then (s, false)
    else
      var top := s.skip[|s.skip| - 1] + line.Delta();
      (BudgetState(if top <= 0 then s.skip[..|s.skip| - 1] else s.skip[|s.skip| - 1 := top], s.pending), false)
  }

  /** Which lines are kept. */
  function BudgetKept(s: BudgetState, lines: seq<Line>): seq<bool>
    decreases |lines|
  {
    if lines == [] then []
    else
      var (t, keep) := BudgetStep(s, lines[0]);
      [keep] + BudgetKept(t, lines[1..])
  }

  ghost predicate AtMostOneBlock(s: BudgetState) {
    |s.skip| <= 1 && (s.skip != [] ==> s.skip[0] > 0 && !s.pending)
  }

  /** Whatever the file, the stack of blocks being skipped never holds more than one entry, that
      entry is positive, and no attribute is pending meanwhile. */
  lemma AtMostOneBlockKept(s: BudgetState, line: Line)
    requires AtMostOneBlock(s)
    ensures AtMostOneBlock(BudgetStep(s, line).0)
  {
    if s.skip != [] {
      assert s.skip[1..] == [];
      assert SumOf(s.skip) == s.skip[0];
    }
  }

  function Select(lines: seq<Line>, kept: seq<bool>): seq<Line>
    requires |lines| == |kept|
  {
    if lines == [] then [] else (if kept[0] then [lines[0]] else []) + Select(lines[1..], kept[1..])
  }

  lemma {:induction false} BudgetKeptLength(s: BudgetState, lines: seq<Line>)
    ensures |BudgetKept(s, lines)| == |lines|
    decreases |lines|
  {
    if lines != [] {
      BudgetKeptLength(BudgetStep(s, lines[0]).0, lines[1..]);
    }
  }

  lemma BudgetAdvance(s: BudgetState, lines: seq<Line>, i: nat)
    requires i < |lines|
    ensures var (t, keep) := BudgetStep(s, lines[i]);
            && |BudgetKept(s, lines[i..])| == |lines| - i
            && |BudgetKept(t, lines[i + 1..])| == |lines| - i - 1
            && Select(lines[i..], BudgetKept(s, lines[i..])) ==
               (if keep then [lines[i]] else []) + Select(lines[i + 1..], BudgetKept(t, lines[i + 1..]))
  {
    BudgetKeptLength(s, lines[i..]);
    assert lines[i..][1..] == lines[i + 1..];
  }

  lemma NothingLeft(s: BudgetState, lines: seq<Line>)
    ensures BudgetKept(s, lines[|lines|..]) == [] && Select(lines[|lines|..], []) == []
  {
  }

  // ----- the dependency scanner

  datatype DepState = DepState(inBlock: bool, blockDepth: int, depth: int, pending: bool)

  function DepStep(s: DepState, line: Line): (DepState, bool) {
    if line.kind == TestAttr then (s.(pending := true), false)
    else
      var enter := s.pending && line.opens > 0;
      var t := if enter then s.(inBlock := true, blockDepth := s.depth, pending := false) else s;
      var depth := t.depth + line.Delta();
      if t.inBlock then (t.(depth := depth, inBlock := depth > t.blockDepth), false)
      else (t.(depth := depth), true)
  }

  function DepKept(s: DepState, lines: seq<Line>): seq<bool>
    decreases |lines|
  {
    if lines == [] then []
    else
      var (t, keep) := DepStep(s, lines[0]);
      [keep] + DepKept(t, lines[1..])
  }

  lemma {:induction false} DepKeptLength(s: DepState, lines: seq<Line>)
    ensures |DepKept(s, lines)| == |lines|
    decreases |lines|
  {
    if lines != [] {
      DepKeptLength(DepStep(s, lines[0]).0, lines[1..]);
    }
  }

  lemma DepAdvance(s: DepState, lines: seq<Line>, i: nat)
    requires i < |lines|
    ensures var (t, keep) := DepStep(s, lines[i]);
            && |DepKept(s, lines[i..])| == |lines| - i
            && |DepKept(t, lines[i + 1..])| == |lines| - i - 1
            && Select(lines[i..], DepKept(s, lines[i..])) ==
               (if keep then [lines[i]] else []) + Select(lines[i + 1..], DepKept(t, lines[i + 1..]))
  {
    DepKeptLength(s, lines[i..]);
    assert lines[i..][1..] == lines[i + 1..];
  }

  lemma NothingLeftDep(s: DepState, lines: seq<Line>)
    ensures DepKept(s, lines[|lines|..]) == [] && Select(lines[|lines|..], []) == []
  {
  }

  // ----- where they agree

  /** A place in a file: outside test blocks; behind a test attribute whose item both scanners expect,
      or only the dependency scanner still does; or inside a test block that is `open` braces deep. */
  datatype Spot = Outside | Awaiting | Overdue | Inside(open: int)

  const START := Outside

  function Into(depth: int): Spot {
    if depth > 0 then Inside(depth) else Outside
  }

  predicate IsTestAttr(line: Line) {
    line.kind == TestAttr || line.kind == OtherTestAttr
  }

  /** The lines that keep the scanners in step. Inside a test block that is any line but a further test
      attribute, outside any but a test attribute that one of them does not recognise; and as long as
      one of them waits, nothing opens a brace but the module or function that both wait for. */
  predicate KeepsStep(s: Spot, line: Line) {
    match s
    case Inside(_) => line.kind != TestAttr
    case Outside => line.kind != OtherTestAttr
    case Awaiting =>
      line.kind == TestAttr || (line.kind != OtherTestAttr && (line.kind == Item <==> line.opens > 0))
    case Overdue => line.kind == TestAttr || (line.kind != OtherTestAttr && line.opens == 0)
  }

  function Next(s: Spot, line: Line): Spot {
    match s
    case Inside(open) => Into(open + line.Delta())
    case Outside => if line.kind == TestAttr then Awaiting else Outside
    case Awaiting => if line.kind == Item then Into(line.Delta()) else if line.kind == Code then Overdue else Awaiting
    case Overdue => if line.kind == TestAttr then Awaiting else Overdue
  }

  predicate InStep(s: Spot, lines: seq<Line>)
    decreases |lines|
  {
    lines == [] || (KeepsStep(s, lines[0]) && InStep(Next(s, lines[0]), lines[1..]))
  }

  /** Both scanners are at that place. */
  predicate At(s: Spot, b: BudgetState, d: DepState) {
    && b == BudgetState(if s.Inside? then [s.open] else [], s.Awaiting?)
    && d.inBlock == s.Inside? && d.pending == (s.Awaiting? || s.Overdue?)
    && (s.Inside? ==> d.depth - d.blockDepth == s.open > 0)
  }

  const FRESH_BUDGET := BudgetState([], false)
  const FRESH_DEP := DepState(false, 0, 0, false)

  lemma SkipSum(b: BudgetState, n: int)
    requires b.skip == [n]
    ensures SumOf(b.skip) == n
  {
    assert b.skip[1..] == [];
  }

  lemma StepAgrees(s: Spot, b: BudgetState, d: DepState, line: Line)
    requires At(s, b, d) && KeepsStep(s, line)
    ensures BudgetStep(b, line).1 == DepStep(d, line).1
    ensures At(Next(s, line), BudgetStep(b, line).0, DepStep(d, line).0)
  {
    if s.Inside? {
      SkipSum(b, s.open);
    }
  }

  /** As long as the lines keep them in step, both scanners keep exactly the same lines. */
  lemma {:induction false} ScannersAgree(s: Spot, b: BudgetState, d: DepState, lines: seq<Line>)
    requires At(s, b, d) && InStep(s, lines)
    ensures BudgetKept(b, lines) == DepKept(d, lines)
    decreases |lines|
  {
    if lines != [] {
      StepAgrees(s, b, d, lines[0]);
      ScannersAgree(Next(s, lines[0]), BudgetStep(b, lines[0]).0, DepStep(d, lines[0]).0, lines[1..]);
    }
  }

  // ----- and only there

  /** The two ways out of step on which both scanners still leave out the line itself: a nested test
      attribute, and a spelling that opens a brace while the dependency scanner waits. */
  predicate Hides(s: Spot, line: Line) {
    || (s.Inside? && line.kind == TestAttr)
    || ((s.Awaiting? || s.Overdue?) && line.kind == OtherTestAttr && line.opens > 0)
  }

  lemma BreachShows(s: Spot, b: BudgetState, d: DepState, line: Line)
    requires At(s, b, d) && !KeepsStep(s, line) && !Hides(s, line)
    ensures BudgetStep(b, line).1 != DepStep(d, line).1
  {
  }

  /** The first line that is out of step, if there is one, is not hidden. */
  predicate Shown(s: Spot, lines: seq<Line>)
    decreases |lines|
  {
    lines == [] || (!Hides(s, lines[0]) && (KeepsStep(s, lines[0]) ==> Shown(Next(s, lines[0]), lines[1..])))
  }

  /** Then the scanners keep the same lines exactly when the file is in step. */
  lemma {:induction false} ShownAgreeIff(s: Spot, b: BudgetState, d: DepState, lines: seq<Line>)
    requires At(s, b, d) && Shown(s, lines)
    ensures BudgetKept(b, lines) == DepKept(d, lines) <==> InStep(s, lines)
    decreases |lines|
  {
    if lines != [] {
      if KeepsStep(s, lines[0]) {
        StepAgrees(s, b, d, lines[0]);
        var b1, d1 := BudgetStep(b, lines[0]).0, DepStep(d, lines[0]).0;
        ShownAgreeIff(Next(s, lines[0]), b1, d1, lines[1..]);
        assert BudgetKept(b, lines)[1..] == BudgetKept(b1, lines[1..]);
        assert DepKept(d, lines)[1..] == DepKept(d1, lines[1..]);
      } else {
        BreachShows(s, b, d, lines[0]);
        assert BudgetKept(b, lines)[0] != DepKept(d, lines)[0];
      }
    }
  }

  lemma BudgetCons(b: BudgetState, line: Line, rest: seq<Line>)
    ensures BudgetKept(b, [line] + rest) == [BudgetStep(b, line).1] + BudgetKept(BudgetStep(b, line).0, rest)
  {
    assert ([line] + rest)[1..] == rest;
  }

  lemma DepCons(d: DepState, line: Line, rest: seq<Line>)
    ensures DepKept(d, [line] + rest) == [DepStep(d, line).1] + DepKept(DepStep(d, line).0, rest)
  {
    assert ([line] + rest)[1..] == rest;
  }

  predicate Apart(b: BudgetState, d: DepState, lines: seq<Line>) {
    BudgetKept(b, lines) != DepKept(d, lines)
  }

  lemma ApartNow(b: BudgetState, d: DepState, line: Line, rest: seq<Line>)
    requires BudgetStep(b, line).1 != DepStep(d, line).1
    ensures Apart(b, d, [line] + rest)
  {
    BudgetCons(b, line, rest);
    DepCons(d, line, rest);
    assert BudgetKept(b, [line] + rest)[0] != DepKept(d, [line] + rest)[0];
  }

  lemma ApartLater(b: BudgetState, d: DepState, line: Line, rest: seq<Line>)
    requires Apart(BudgetStep(b, line).0, DepStep(d, line).0, rest)
    ensures Apart(b, d, [line] + rest)
  {
    BudgetCons(b, line, rest);
    DepCons(d, line, rest);
    assert BudgetKept(b, [line] + rest)[1..] != DepKept(d, [line] + rest)[1..];
  }

  const PLAIN := Line(Code, 0, 0)
  const WHOLE_ITEM := Line(Item, 1, 1)
  const BODILESS_ITEM := Line(Item, 0, 0)

  /** Lines without test attributes that may stand behind a test attribute, beginning with an item that
      opens a brace if both scanners know its spelling. */
  predicate Harmless(line: Line, ext: seq<Line>) {
    && IsTestAttr(line) && ext != [] && (forall i :: 0 <= i < |ext| ==> !IsTestAttr(ext[i]))
    && (line.kind == TestAttr ==> ext[0].kind == Item && ext[0].opens > 0)
  }

  /** A nested test attribute: the dependency scanner leaves the outer block with the inner item. */
  lemma NestingSeparates(s: Spot, b: BudgetState, d: DepState, line: Line)
    requires At(s, b, d) && s.Inside? && line.kind == TestAttr
    ensures Apart(b, d, [line] + ([WHOLE_ITEM] + ([PLAIN] + [])))
  {
    hide BudgetKept, DepKept, Apart;
    SkipSum(b, s.open);
    var b1, d1 := BudgetStep(b, line).0, DepStep(d, line).0;
    if s.open + line.Delta() <= 0 {
      ApartNow(b1, d1, WHOLE_ITEM, [PLAIN] + []);
    } else {
      SkipSum(b1, s.open + line.Delta());
      ApartNow(BudgetStep(b1, WHOLE_ITEM).0, DepStep(d1, WHOLE_ITEM).0, PLAIN, []);
      ApartLater(b1, d1, WHOLE_ITEM, [PLAIN] + []);
    }
    ApartLater(b, d, line, [WHOLE_ITEM] + ([PLAIN] + []));
  }

  /** After a spelling that opens a brace while the dependency scanner waits, that scanner has taken it
      for the item, and the budget scanner waits. */
  lemma SpellingTaken(s: Spot, b: BudgetState, d: DepState, line: Line)
    requires At(s, b, d) && Hides(s, line) && line.kind == OtherTestAttr
    ensures BudgetStep(b, line).0 == BudgetState([], true)
    ensures DepStep(d, line).0 == DepState(line.Delta() > 0, d.depth, d.depth + line.Delta(), false)
  {
  }

  lemma BudgetAwaits(line: Line)
    ensures BudgetStep(BudgetState([], true), line).1 <==> line.kind != Item && !IsTestAttr(line)
  {
  }

  /** A spelling that only the budget scanner recognises, outside test blocks. */
  lemma SpellingSeparates(s: Spot, b: BudgetState, d: DepState, line: Line) returns (ext: seq<Line>)
    requires At(s, b, d) && !s.Inside? && line.kind == OtherTestAttr
    ensures |ext| <= 1 && (ext == [] || Harmless(line, ext)) && Apart(b, d, [line] + ext)
  {
    hide BudgetKept, DepKept, Apart, BudgetStep;
    if Hides(s, line) {
      SpellingTaken(s, b, d, line);
      var b1, d1 := BudgetStep(b, line).0, DepStep(d, line).0;
      var next := if d1.inBlock then PLAIN else BODILESS_ITEM;
      BudgetAwaits(next);
      ext := [next] + [];
      ApartNow(b1, d1, next, []);
      ApartLater(b, d, line, ext);
    } else {
      ext := [];
      BreachShows(s, b, d, line);
      ApartNow(b, d, line, ext);
    }
  }

  /** Every line that is out of step separates the scanners at once or within two harmless lines. */
  lemma BreachSeparates(s: Spot, b: BudgetState, d: DepState, line: Line) returns (ext: seq<Line>)
    requires At(s, b, d) && !KeepsStep(s, line)
    ensures |ext| <= 2 && (ext == [] || Harmless(line, ext)) && Apart(b, d, [line] + ext)
    ensures !Hides(s, line) ==> ext == []
  {
    hide BudgetKept, DepKept, Apart, BudgetStep, DepStep;
    if !Hides(s, line) {
      ext := [];
      BreachShows(s, b, d, line);
      ApartNow(b, d, line, ext);
    } else if line.kind == TestAttr {
      ext := [WHOLE_ITEM] + ([PLAIN] + []);
      NestingSeparates(s, b, d, line);
    } else {
      ext := SpellingSeparates(s, b, d, line);
    }
  }

  /** The text ends in a test attribute with at most blank lines and other attributes after it. */
  predicate Waiting(lines: seq<Line>) {
    lines != [] &&
    var last := lines[|lines| - 1];
    (last.kind == TestAttr || ((last.kind == Blank || last.kind == OtherAttr) && Waiting(lines[..|lines| - 1])))
  }

  function After(s: Spot, lines: seq<Line>): Spot {
    if lines == [] then s else Next(After(s, lines[..|lines| - 1]), lines[|lines| - 1])
  }

  lemma {:induction false} AfterCons(s: Spot, lines: seq<Line>)
    requires lines != []
    ensures After(s, lines) == After(Next(s, lines[0]), lines[1..])
  {
    if |lines| > 1 {
      AfterCons(s, lines[..|lines| - 1]);
      assert lines[..|lines| - 1][1..] == lines[1..][..|lines| - 2];
    } else {
      assert After(s, lines[..0]) == s;
    }
  }

  lemma {:induction false} InStepSnoc(s: Spot, lines: seq<Line>, line: Line)
    ensures InStep(s, lines + [line]) <==> InStep(s, lines) && KeepsStep(After(s, lines), line)
    decreases |lines|
  {
    hide KeepsStep, Next;
    if lines == [] {
      assert ([] + [line])[1..] == [];
    } else {
      InStepSnoc(Next(s, lines[0]), lines[1..], line);
      assert (lines + [line])[1..] == lines[1..] + [line];
      AfterCons(s, lines);
    }
  }

  /** In step, waiting is visible in the text. */
  lemma {:induction false} WaitingInText(lines: seq<Line>)
    requires InStep(START, lines)
    ensures After(START, lines).Inside? ==> After(START, lines).open > 0
    ensures After(START, lines).Awaiting? <==> Waiting(lines)
  {
    if lines != [] {
      var n := |lines| - 1;
      assert lines == lines[..n] + [lines[n]];
      InStepSnoc(START, lines[..n], lines[n]);
      WaitingInText(lines[..n]);
    }
  }

  lemma {:induction false} HarmlessInStep(s: Spot, ext: seq<Line>)
    requires ext != [] && forall k :: 0 <= k < |ext| ==> !IsTestAttr(ext[k])
    requires s.Outside? || s.Inside? || (s.Awaiting? && ext[0].kind == Item && ext[0].opens > 0)
    ensures InStep(s, ext)
    decreases |ext|
  {
    if |ext| > 1 {
      HarmlessInStep(Next(s, ext[0]), ext[1..]);
    }
  }

  lemma {:induction false} InStepConcat(s: Spot, lines: seq<Line>, ext: seq<Line>)
    requires InStep(s, lines) && InStep(After(s, lines), ext)
    ensures InStep(s, lines + ext)
    decreases |lines|
  {
    if lines == [] {
      assert lines + ext == ext;
    } else {
      AfterCons(s, lines);
      InStepConcat(Next(s, lines[0]), lines[1..], ext);
      assert (lines + ext)[1..] == lines[1..] + ext;
    }
  }

  lemma {:induction false} InStepPrefix(s: Spot, lines: seq<Line>, i: nat)
    requires InStep(s, lines) && i <= |lines|
    ensures InStep(s, lines[..i])
    decreases |lines|
  {
    if i > 0 {
      InStepPrefix(Next(s, lines[0]), lines[1..], i - 1);
      assert lines[..i][1..] == lines[1..][..i - 1];
    }
  }

  /** From a common place, a file that is not in step has a line after which they can be separated. */
  lemma {:induction false} FirstBreach(s: Spot, b: BudgetState, d: DepState, lines: seq<Line>)
    returns (i: nat, ext: seq<Line>)
    requires At(s, b, d) && !InStep(s, lines)
    ensures 0 < i <= |lines| && |ext| <= 2 && (ext == [] || Harmless(lines[i - 1], ext))
    ensures Apart(b, d, lines[..i] + ext)
    decreases |lines|
  {
    hide BudgetKept, DepKept, Apart, BudgetStep, DepStep, At, KeepsStep, Next, Harmless;
    if !KeepsStep(s, lines[0]) {
      i := 1;
      ext := BreachSeparates(s, b, d, lines[0]);
      assert lines[..1] == [lines[0]];
    } else {
      StepAgrees(s, b, d, lines[0]);
      var j, e := FirstBreach(Next(s, lines[0]), BudgetStep(b, lines[0]).0, DepStep(d, lines[0]).0, lines[1..]);
      i, ext := j + 1, e;
      assert lines[1..][j - 1] == lines[i - 1];
      ApartLater(b, d, lines[0], lines[1..][..j] + ext);
      assert lines[..i] + ext == [lines[0]] + (lines[1..][..j] + ext);
    }
  }

  /** The first `i` lines of a file, alone or with harmless lines behind a test attribute. */
  predicate Beginning(lines: seq<Line>, i: nat, ext: seq<Line>)
    requires i <= |lines|
  {
    ext == [] || (i > 0 && Harmless(lines[i - 1], ext))
  }

  lemma BeginningInStep(lines: seq<Line>, i: nat, ext: seq<Line>)
    requires InStep(START, lines) && i <= |lines| && Beginning(lines, i, ext)
    ensures InStep(START, lines[..i] + ext)
  {
    InStepPrefix(START, lines, i);
    if ext == [] {
      assert lines[..i] + ext == lines[..i];
    } else {
      assert lines[..i] == lines[..i - 1] + [lines[i - 1]];
      InStepSnoc(START, lines[..i - 1], lines[i - 1]);
      HarmlessInStep(After(START, lines[..i]), ext);
      InStepConcat(START, lines[..i], ext);
    }
  }

  /** A file is in step exactly when the scanners agree on each of its beginnings, alone or with harmless
      lines behind a test attribute; two of them are enough to tell. */
  lemma InStepIff(lines: seq<Line>)
    ensures InStep(START, lines) <==>
            forall i, ext :: 0 <= i <= |lines| && |ext| <= 2 && Beginning(lines, i, ext) ==>
              !Apart(FRESH_BUDGET, FRESH_DEP, lines[..i] + ext)
    ensures InStep(START, lines) ==>
            forall i, ext :: 0 <= i <= |lines| && Beginning(lines, i, ext) ==>
              !Apart(FRESH_BUDGET, FRESH_DEP, lines[..i] + ext)
  {
    hide BudgetKept, DepKept;
    if InStep(START, lines) {
      forall i, ext | 0 <= i <= |lines| && Beginning(lines, i, ext)
        ensures !Apart(FRESH_BUDGET, FRESH_DEP, lines[..i] + ext)
      {
        BeginningInStep(lines, i, ext);
        ScannersAgree(START, FRESH_BUDGET, FRESH_DEP, lines[..i] + ext);
      }
    } else {
      var i, ext := FirstBreach(START, FRESH_BUDGET, FRESH_DEP, lines);
      assert Beginning(lines, i, ext);
    }
  }

  // ----- an attribute that the dependency scanner keeps waiting with

  /** Lines that neither are test attributes nor open a brace. */
  predicate Quiet(mid: seq<Line>) {
    forall k :: 0 <= k < |mid| ==> !IsTestAttr(mid[k]) && mid[k].opens == 0
  }

  /** Only blank lines and attributes. */
  predicate AllAside(mid: seq<Line>) {
    forall k :: 0 <= k < |mid| ==> mid[k].kind == Blank || mid[k].kind == OtherAttr
  }

  /** Line `k` is a module or function without a body, with only blank lines and attributes before it. */
  predicate Bodiless(mid: seq<Line>, k: nat)
    requires k < |mid|
  {
    mid[k].kind == Item && AllAside(mid[..k])
  }

  lemma OneAside(mid: seq<Line>)
    requires mid != []
    ensures AllAside(mid[..1]) <==> mid[0].kind == Blank || mid[0].kind == OtherAttr
  {
  }

  lemma BodilessTail(mid: seq<Line>)
    requires mid != []
    ensures Bodiless(mid, 0) <==> mid[0].kind == Item
    ensures AllAside(mid) <==> AllAside(mid[..1]) && AllAside(mid[1..])
    ensures forall k :: 0 < k < |mid| ==> (Bodiless(mid, k) <==> AllAside(mid[..1]) && Bodiless(mid[1..], k - 1))
  {
    assert forall k :: 0 < k < |mid| ==> mid[1..][..k - 1] == mid[1..k] && mid[..k] == mid[..1] + mid[1..k];
    assert mid == mid[..1] + mid[1..];
  }

  lemma {:induction false} DepGoesOn(d: DepState, mid: seq<Line>, fun: Line)
    requires d.pending && !d.inBlock && Quiet(mid) && !IsTestAttr(fun) && fun.opens > 0
    ensures |DepKept(d, mid + [fun])| == |mid| + 1 && !DepKept(d, mid + [fun])[|mid|]
    ensures forall k :: 0 <= k < |mid| ==> DepKept(d, mid + [fun])[k]
    decreases |mid|
  {
    if mid == [] {
      DepCons(d, fun, []);
      assert mid + [fun] == [fun] + [];
    } else {
      DepGoesOn(DepStep(d, mid[0]).0, mid[1..], fun);
      DepCons(d, mid[0], mid[1..] + [fun]);
      assert mid + [fun] == [mid[0]] + (mid[1..] + [fun]);
    }
  }

  lemma {:induction false} BudgetGoesOn(b: BudgetState, mid: seq<Line>, fun: Line)
    requires b == BudgetState([], b.pending) && Quiet(mid) && !IsTestAttr(fun)
    requires fun.kind == Item && b.pending ==> !AllAside(mid)
    ensures |BudgetKept(b, mid + [fun])| == |mid| + 1 && BudgetKept(b, mid + [fun])[|mid|]
    ensures forall k :: 0 <= k < |mid| ==> (BudgetKept(b, mid + [fun])[k] <==> !(b.pending && Bodiless(mid, k)))
    decreases |mid|
  {
    if mid == [] {
      BudgetCons(b, fun, []);
      assert mid + [fun] == [fun] + [];
    } else {
      hide BudgetKept, Bodiless, AllAside;
      BodilessTail(mid);
      OneAside(mid);
      BudgetGoesOn(BudgetStep(b, mid[0]).0, mid[1..], fun);
      BudgetCons(b, mid[0], mid[1..] + [fun]);
      assert mid + [fun] == [mid[0]] + (mid[1..] + [fun]);
    }
  }

  /** The common way out of step: when the first line after a test attribute that is neither blank nor an
      attribute is code such as an import, or a module declared without a body, the dependency scanner
      leaves out the next line that opens a brace, however far away. The budget scanner keeps that one
      and at most leaves out the module declaration. */
  lemma ScannersDiffer(b: BudgetState, d: DepState, mid: seq<Line>, fun: Line)
    requires At(Awaiting, b, d) && Quiet(mid) && !IsTestAttr(fun) && fun.opens > 0
    requires fun.kind == Item ==> !AllAside(mid)
    ensures |DepKept(d, mid + [fun])| == |BudgetKept(b, mid + [fun])| == |mid| + 1
    ensures !DepKept(d, mid + [fun])[|mid|] && BudgetKept(b, mid + [fun])[|mid|]
    ensures forall k :: 0 <= k < |mid| ==>
              DepKept(d, mid + [fun])[k] && (BudgetKept(b, mid + [fun])[k] <==> !Bodiless(mid, k))
  {
    DepGoesOn(d, mid, fun);
    BudgetGoesOn(b, mid, fun);
  }

  // ----- which lines are left out

  function Braces(lines: seq<Line>): int {
    if lines == [] then 0 else Braces(lines[..|lines| - 1]) + lines[|lines| - 1].Delta()
  }

  /** A module or function that a test attribute waits for begins at line `s` and has not closed its
      braces before line `i`. */
  ghost predicate Covers(lines: seq<Line>, s: nat, i: nat)
    requires i <= |lines|
  {
    && s < i && lines[s].kind == Item && Waiting(lines[..s])
    && forall k :: s < k <= i ==> Braces(lines[s..k]) > 0
  }

  /** A test attribute, the item it belongs to, or a line up to the one that closes the item. */
  ghost predicate TestOnly(lines: seq<Line>, i: nat)
    requires i < |lines|
  {
    || lines[i].kind == TestAttr
    || (lines[i].kind == Item && Waiting(lines[..i]))
    || exists s: nat :: Covers(lines, s, i)
  }

  ghost function NotTestOnly(lines: seq<Line>): seq<bool> {
    seq(|lines|, i requires 0 <= i < |lines| => !TestOnly(lines, i))
  }

  lemma BracesSnoc(lines: seq<Line>, s: nat, i: nat)
    requires s < i <= |lines|
    ensures Braces(lines[s..i]) == Braces(lines[s..i - 1]) + lines[i - 1].Delta()
  {
    assert lines[s..i][..i - s - 1] == lines[s..i - 1];
  }

  lemma CoversBack(lines: seq<Line>, s: nat, i: nat)
    requires i <= |lines| && Covers(lines, s, i)
    ensures s == i - 1 || Covers(lines, s, i - 1)
  {
  }

  lemma OpenGoesOn(lines: seq<Line>, j: nat, before: Spot) returns (s: nat)
    requires j < |lines| && KeepsStep(before, lines[j]) && Next(before, lines[j]).Inside?
    requires before.Awaiting? <==> Waiting(lines[..j])
    requires before.Inside? ==> exists s: nat :: Covers(lines, s, j)
    requires forall s: nat :: Covers(lines, s, j) ==> before == Inside(Braces(lines[s..j]))
    ensures Covers(lines, s, j + 1)
  {
    if before.Inside? {
      s :| Covers(lines, s, j);
      BracesSnoc(lines, s, j + 1);
    } else {
      s := j;
      BracesSnoc(lines, j, j + 1);
      assert Braces(lines[j..j]) == 0;
    }
  }

  /** In step, being inside a test block is visible in the text, and so is its depth. */
  lemma {:induction false} OpenInText(lines: seq<Line>, i: nat)
    requires i <= |lines| && InStep(START, lines[..i])
    ensures After(START, lines[..i]).Inside? <==> exists s: nat :: Covers(lines, s, i)
    ensures forall s: nat :: Covers(lines, s, i) ==> After(START, lines[..i]) == Inside(Braces(lines[s..i]))
  {
    if i > 0 {
      var line, before := lines[i - 1], After(START, lines[..i - 1]);
      assert lines[..i] == lines[..i - 1] + [line];
      assert lines[..i][..i - 1] == lines[..i - 1];
      InStepSnoc(START, lines[..i - 1], line);
      WaitingInText(lines[..i - 1]);
      OpenInText(lines, i - 1);
      assert After(START, lines[..i]) == Next(before, line);
      forall s: nat | Covers(lines, s, i) ensures Next(before, line) == Inside(Braces(lines[s..i])) {
        BracesSnoc(lines, s, i);
        CoversBack(lines, s, i);
        assert s == i - 1 ==> Braces(lines[s..i - 1]) == 0;
      }
      if Next(before, line).Inside? {
        var s := OpenGoesOn(lines, i - 1, before);
      }
    }
  }

  predicate KeepsLine(s: Spot, line: Line) {
    line.kind != TestAttr && !s.Inside? && !(s.Awaiting? && line.kind == Item)
  }

  lemma StepKeeps(s: Spot, b: BudgetState, d: DepState, line: Line)
    requires At(s, b, d) && KeepsStep(s, line)
    ensures BudgetStep(b, line).1 <==> KeepsLine(s, line)
  {
    if s.Inside? {
      SkipSum(b, s.open);
    }
  }

  lemma {:induction false} KeptAt(s: Spot, b: BudgetState, d: DepState, lines: seq<Line>, i: nat)
    requires At(s, b, d) && InStep(s, lines) && i < |lines|
    ensures |BudgetKept(b, lines)| == |lines|
    ensures BudgetKept(b, lines)[i] <==> KeepsLine(After(s, lines[..i]), lines[i])
    decreases |lines|
  {
    BudgetKeptLength(b, lines);
    if i == 0 {
      StepKeeps(s, b, d, lines[0]);
    } else {
      StepAgrees(s, b, d, lines[0]);
      KeptAt(Next(s, lines[0]), BudgetStep(b, lines[0]).0, DepStep(d, lines[0]).0, lines[1..], i - 1);
      AfterCons(s, lines[..i]);
      assert lines[..i][1..] == lines[1..][..i - 1];
    }
  }

  /** On a file in step both scanners leave out exactly the test attributes and the items they belong
      to, each up to the line that closes its braces. */
  lemma KeptMeaning(lines: seq<Line>)
    requires InStep(START, lines)
    ensures BudgetKept(FRESH_BUDGET, lines) == DepKept(FRESH_DEP, lines) == NotTestOnly(lines)
  {
    ScannersAgree(START, FRESH_BUDGET, FRESH_DEP, lines);
    BudgetKeptLength(FRESH_BUDGET, lines);
    forall i | 0 <= i < |lines| ensures BudgetKept(FRESH_BUDGET, lines)[i] <==> !TestOnly(lines, i) {
      KeptAt(START, FRESH_BUDGET, FRESH_DEP, lines, i);
      InStepPrefix(START, lines, i);
      WaitingInText(lines[..i]);
      OpenInText(lines, i);
    }
  }

  // ----- what each scanner leaves out of any file

  function Opened(lines: seq<Line>): nat {
    if lines == [] then 0 else Opened(lines[..|lines| - 1]) + lines[|lines| - 1].opens
  }

  function Closed(lines: seq<Line>): nat {
    if lines == [] then 0 else Closed(lines[..|lines| - 1]) + lines[|lines| - 1].closes
  }

  /** The brace balance of a stretch: all its opening braces less all its closing ones. */
  lemma {:induction false} BracesCount(lines: seq<Line>)
    ensures Braces(lines) == Opened(lines) - Closed(lines)
  {
    if lines != [] {
      BracesCount(lines[..|lines| - 1]);
    }
  }

  /** The budget scanner is inside the item that begins at line `s` when it reaches line `i`. */
  ghost predicate BudgetCovers(lines: seq<Line>, s: nat, i: nat)
    requires i <= |lines|
    decreases i, 2
  {
    && s < i && BudgetTakes(lines, s)
    && forall k :: s < k <= i ==> Braces(lines[s..k]) > 0
  }

  ghost predicate BudgetSkips(lines: seq<Line>, i: nat)
    requires i <= |lines|
    decreases i, 3
  {
    exists s: nat :: BudgetCovers(lines, s, i)
  }

  /** A module or function that a test attribute in either spelling waits for. */
  ghost predicate BudgetTakes(lines: seq<Line>, s: nat)
    requires s < |lines|
    decreases s, 1
  {
    lines[s].kind == Item && BudgetExpects(lines, s)
  }

  /** Before line `i` stands a test attribute outside test items, followed by nothing but blank lines and
      attributes. */
  ghost predicate BudgetExpects(lines: seq<Line>, i: nat)
    requires i <= |lines|
    decreases i, 0
  {
    exists a: nat ::
      && a < i && IsTestAttr(lines[a]) && !BudgetSkips(lines, a)
      && forall k :: a < k < i ==> lines[k].kind != Item && lines[k].kind != Code
  }

  /** On the lines before `i`, from a fresh start. */
  function BudgetAfter(lines: seq<Line>, i: nat): BudgetState
    requires i <= |lines|
  {
    if i == 0 then FRESH_BUDGET else BudgetStep(BudgetAfter(lines, i - 1), lines[i - 1]).0
  }

  lemma BudgetCoversBefore(lines: seq<Line>, s: nat, i: nat)
    requires i <= |lines|
    ensures BudgetCovers(lines, s, i) ==> s < i
  {
  }

  /** Being inside an item after one more line. */
  lemma BudgetCoversNext(lines: seq<Line>, s: nat, j: nat)
    requires s <= j < |lines|
    ensures s == j ==> Braces(lines[s..j]) == 0
    ensures Braces(lines[s..j + 1]) == Braces(lines[s..j]) + lines[j].Delta()
    ensures BudgetCovers(lines, s, j + 1) <==>
            (if s == j then BudgetTakes(lines, j) else BudgetCovers(lines, s, j)) && Braces(lines[s..j + 1]) > 0
  {
    BracesSnoc(lines, s, j + 1);
    assert s == j ==> lines[s..j] == [];
  }

  lemma BudgetExpectsNext(lines: seq<Line>, i: nat)
    requires i < |lines|
    ensures BudgetExpects(lines, i + 1) <==>
            || (IsTestAttr(lines[i]) && !BudgetSkips(lines, i))
            || (BudgetExpects(lines, i) && lines[i].kind != Item && lines[i].kind != Code)
  {
    hide BudgetSkips;
    if BudgetExpects(lines, i) && lines[i].kind != Item && lines[i].kind != Code {
      var a: nat :| && a < i && IsTestAttr(lines[a]) && !BudgetSkips(lines, a)
                    && forall k :: a < k < i ==> lines[k].kind != Item && lines[k].kind != Code;
      assert forall k :: a < k < i + 1 ==> lines[k].kind != Item && lines[k].kind != Code;
    }
  }

  lemma BudgetCovering(lines: seq<Line>, i: nat) returns (s: nat)
    requires i <= |lines| && BudgetSkips(lines, i)
    ensures BudgetCovers(lines, s, i)
  {
    s :| BudgetCovers(lines, s, i);
  }

  ghost predicate BudgetDepthIs(lines: seq<Line>, i: nat, skip: seq<int>)
    requires i <= |lines|
  {
    forall s: nat :: BudgetCovers(lines, s, i) ==> skip == [Braces(lines[s..i])]
  }

  lemma BudgetDepthAt(lines: seq<Line>, i: nat, skip: seq<int>, s: nat)
    requires i <= |lines| && BudgetDepthIs(lines, i, skip) && BudgetCovers(lines, s, i)
    ensures skip == [Braces(lines[s..i])]
  {
  }

  /** Line `i` is reached in the state that the text before it says. */
  ghost predicate BudgetInText(lines: seq<Line>, i: nat)
    requires i <= |lines|
  {
    var b := BudgetAfter(lines, i);
    && AtMostOneBlock(b) && (b.pending <==> BudgetExpects(lines, i))
    && (b.skip != [] <==> BudgetSkips(lines, i))
    && BudgetDepthIs(lines, i, b.skip)
  }

  lemma BudgetStepMeaning(b: BudgetState, line: Line)
    requires AtMostOneBlock(b)
    ensures var (t, keep) := BudgetStep(b, line);
            && (keep <==> b.skip == [] && !(b.pending && line.kind == Item) && !IsTestAttr(line))
            && (b.skip != [] ==>
                  var depth := b.skip[0] + line.Delta(); t == BudgetState(if depth > 0 then [depth] else [], false))
            && (b.skip == [] && b.pending && line.kind == Item ==>
                  t == BudgetState(if line.Delta() > 0 then [line.Delta()] else [], false))
            && (b.skip == [] && !(b.pending && line.kind == Item) ==>
                  t == BudgetState([], IsTestAttr(line) || (b.pending && line.kind != Code)))
  {
    if b.skip != [] {
      SkipSum(b, b.skip[0]);
    }
  }

  lemma BudgetPendingNext(lines: seq<Line>, i: nat)
    requires 0 < i <= |lines| && BudgetInText(lines, i - 1)
    ensures AtMostOneBlock(BudgetAfter(lines, i))
    ensures BudgetAfter(lines, i).pending <==> BudgetExpects(lines, i)
  {
    var b, line := BudgetAfter(lines, i - 1), lines[i - 1];
    BudgetStepMeaning(b, line);
    AtMostOneBlockKept(b, line);
    hide BudgetStep, BudgetExpects, BudgetCovers, BudgetDepthIs, BudgetSkips;
    BudgetExpectsNext(lines, i - 1);
  }

  lemma NothingCovered(lines: seq<Line>)
    ensures !BudgetSkips(lines, 0) && !BudgetExpects(lines, 0) && BudgetDepthIs(lines, 0, [])
  {
  }

  lemma BudgetDepthNext(lines: seq<Line>, i: nat, s: nat)
    requires 0 < i <= |lines| && BudgetInText(lines, i - 1) && BudgetCovers(lines, s, i)
    ensures BudgetAfter(lines, i).skip == [Braces(lines[s..i])]
  {
    var j, b := i - 1, BudgetAfter(lines, i - 1);
    BudgetStepMeaning(b, lines[j]);
    assert BudgetTakes(lines, j) <==> lines[j].kind == Item && b.pending;
    hide BudgetStep, BudgetExpects, BudgetCovers, BudgetTakes, BudgetDepthIs, BudgetSkips, Braces;
    BudgetCoversBefore(lines, s, i);
    BudgetCoversNext(lines, s, j);
    if s < j {
      BudgetDepthAt(lines, j, b.skip, s);
    }
  }

  lemma BudgetStays(lines: seq<Line>, i: nat) returns (s: nat)
    requires 0 < i <= |lines| && BudgetInText(lines, i - 1) && BudgetAfter(lines, i).skip != []
    ensures BudgetCovers(lines, s, i)
  {
    var j, b := i - 1, BudgetAfter(lines, i - 1);
    BudgetStepMeaning(b, lines[j]);
    assert BudgetTakes(lines, j) <==> lines[j].kind == Item && b.pending;
    hide BudgetStep, BudgetExpects, BudgetCovers, BudgetTakes, BudgetDepthIs, BudgetSkips, Braces;
    s := j;
    if b.skip != [] {
      s := BudgetCovering(lines, j);
      BudgetCoversBefore(lines, s, j);
      BudgetDepthAt(lines, j, b.skip, s);
    }
    BudgetCoversNext(lines, s, j);
  }

  lemma {:induction false} BudgetStateInText(lines: seq<Line>, i: nat)
    requires i <= |lines|
    ensures BudgetInText(lines, i)
  {
    if i > 0 {
      BudgetStateInText(lines, i - 1);
      BudgetPendingNext(lines, i);
      hide BudgetStep, BudgetAfter, BudgetExpects, BudgetCovers, Braces;
      if BudgetAfter(lines, i).skip != [] {
        var s := BudgetStays(lines, i);
        assert BudgetCovers(lines, s, i);
      }
      forall s: nat | BudgetCovers(lines, s, i) ensures BudgetAfter(lines, i).skip == [Braces(lines[s..i])] {
        BudgetDepthNext(lines, i, s);
      }
      if BudgetSkips(lines, i) {
        var s := BudgetCovering(lines, i);
        assert BudgetAfter(lines, i).skip == [Braces(lines[s..i])];
      }
    } else {
      NothingCovered(lines);
    }
  }

  lemma {:induction false} BudgetKeptFrom(lines: seq<Line>, i: nat)
    requires i <= |lines|
    ensures |BudgetKept(FRESH_BUDGET, lines)| == |lines|
    ensures BudgetKept(FRESH_BUDGET, lines)[i..] == BudgetKept(BudgetAfter(lines, i), lines[i..])
  {
    BudgetKeptLength(FRESH_BUDGET, lines);
    if i == 0 {
      assert lines[0..] == lines;
    } else {
      BudgetKeptFrom(lines, i - 1);
      assert lines[i - 1..][1..] == lines[i..];
      assert BudgetKept(FRESH_BUDGET, lines)[i..] == BudgetKept(FRESH_BUDGET, lines)[i - 1..][1..];
    }
  }

  /** Whatever the file, the budget scanner leaves out exactly the test attributes, the modules and functions
      they wait for, and the lines up to the one that closes such an item. */
  lemma BudgetMeaning(lines: seq<Line>, i: nat)
    requires i < |lines|
    ensures |BudgetKept(FRESH_BUDGET, lines)| == |lines|
    ensures BudgetKept(FRESH_BUDGET, lines)[i] <==>
            !IsTestAttr(lines[i]) && !BudgetTakes(lines, i) && !BudgetSkips(lines, i)
  {
    BudgetKeptFrom(lines, i);
    BudgetStateInText(lines, i);
    BudgetStepMeaning(BudgetAfter(lines, i), lines[i]);
    assert BudgetKept(FRESH_BUDGET, lines)[i] == BudgetKept(FRESH_BUDGET, lines)[i..][0];
  }

  /** Before line `i` stands a plain test attribute, and no line since then opens a brace. */
  ghost predicate DepExpects(lines: seq<Line>, i: nat)
    requires i <= |lines|
  {
    exists a: nat ::
      && a < i && lines[a].kind == TestAttr
      && forall k :: a < k < i ==> lines[k].kind == TestAttr || lines[k].opens == 0
  }

  /** Whatever opens the next brace is taken for the test item. */
  ghost predicate DepTakes(lines: seq<Line>, s: nat)
    requires s < |lines|
  {
    lines[s].kind != TestAttr && lines[s].opens > 0 && DepExpects(lines, s)
  }

  /** The brace balance without the lines of test attributes, which this scanner does not count. */
  function DepBraces(lines: seq<Line>): int {
    if lines == [] then 0
    else
      var last := lines[|lines| - 1];
      DepBraces(lines[..|lines| - 1]) + if last.kind == TestAttr then 0 else last.Delta()
  }

  /** The dependency scanner is inside the item that it took last, at line `s`. */
  ghost predicate DepCovers(lines: seq<Line>, s: nat, i: nat)
    requires i <= |lines|
  {
    && s < i && DepTakes(lines, s)
    && (forall k :: s < k < i ==> !DepTakes(lines, k))
    && forall k :: s < k <= i ==> DepBraces(lines[s..k]) > 0
  }

  ghost predicate DepSkips(lines: seq<Line>, i: nat)
    requires i <= |lines|
  {
    exists s: nat :: DepCovers(lines, s, i)
  }

  function DepAfter(lines: seq<Line>, i: nat): DepState
    requires i <= |lines|
  {
    if i == 0 then FRESH_DEP else DepStep(DepAfter(lines, i - 1), lines[i - 1]).0
  }

  lemma DepBracesSnoc(lines: seq<Line>, s: nat, i: nat)
    requires s < i <= |lines|
    ensures DepBraces(lines[s..i]) ==
            DepBraces(lines[s..i - 1]) + if lines[i - 1].kind == TestAttr then 0 else lines[i - 1].Delta()
  {
    assert lines[s..i][..i - s - 1] == lines[s..i - 1];
  }

  lemma DepCoversBefore(lines: seq<Line>, s: nat, i: nat)
    requires i <= |lines|
    ensures DepCovers(lines, s, i) ==> s < i
  {
  }

  lemma DepCoversPositive(lines: seq<Line>, s: nat, i: nat)
    requires i <= |lines| && DepCovers(lines, s, i)
    ensures DepBraces(lines[s..i]) > 0
  {
  }

  lemma DepCoversNext(lines: seq<Line>, s: nat, j: nat)
    requires s <= j < |lines|
    ensures s == j ==> DepBraces(lines[s..j]) == 0
    ensures DepBraces(lines[s..j + 1]) ==
            DepBraces(lines[s..j]) + if lines[j].kind == TestAttr then 0 else lines[j].Delta()
    ensures DepCovers(lines, s, j + 1) <==>
            && (if s == j then DepTakes(lines, j) else DepCovers(lines, s, j) && !DepTakes(lines, j))
            && DepBraces(lines[s..j + 1]) > 0
  {
    DepBracesSnoc(lines, s, j + 1);
    assert s == j ==> lines[s..j] == [];
  }

  lemma DepExpectsNext(lines: seq<Line>, i: nat)
    requires i < |lines|
    ensures DepExpects(lines, i + 1) <==>
            lines[i].kind == TestAttr || (DepExpects(lines, i) && lines[i].opens == 0)
  {
    if DepExpects(lines, i) && lines[i].opens == 0 {
      var a: nat :| && a < i && lines[a].kind == TestAttr
                    && forall k :: a < k < i ==> lines[k].kind == TestAttr || lines[k].opens == 0;
      assert forall k :: a < k < i + 1 ==> lines[k].kind == TestAttr || lines[k].opens == 0;
    }
  }

  lemma DepCovering(lines: seq<Line>, i: nat) returns (s: nat)
    requires i <= |lines| && DepSkips(lines, i)
    ensures DepCovers(lines, s, i)
  {
    s :| DepCovers(lines, s, i);
  }

  lemma DepCovered(lines: seq<Line>, s: nat, i: nat)
    requires i <= |lines| && DepCovers(lines, s, i)
    ensures DepSkips(lines, i)
  {
  }

  ghost predicate DepDepthIs(lines: seq<Line>, i: nat, depth: int)
    requires i <= |lines|
  {
    forall s: nat :: DepCovers(lines, s, i) ==> depth == DepBraces(lines[s..i])
  }

  lemma DepDepthAt(lines: seq<Line>, i: nat, depth: int, s: nat)
    requires i <= |lines| && DepDepthIs(lines, i, depth) && DepCovers(lines, s, i)
    ensures depth == DepBraces(lines[s..i])
  {
  }

  ghost predicate DepInText(lines: seq<Line>, i: nat)
    requires i <= |lines|
  {
    var d := DepAfter(lines, i);
    && (d.pending <==> DepExpects(lines, i))
    && (d.inBlock <==> DepSkips(lines, i))
    && DepDepthIs(lines, i, d.depth - d.blockDepth)
  }

  lemma DepStepMeaning(d: DepState, line: Line)
    ensures var (t, keep) := DepStep(d, line);
            var takes := line.kind != TestAttr && line.opens > 0 && d.pending;
            var from := if takes then d.depth else d.blockDepth;
            var depth := d.depth + if line.kind == TestAttr then 0 else line.Delta();
            && (keep <==> line.kind != TestAttr && !takes && !d.inBlock)
            && (t.pending <==> line.kind == TestAttr || (d.pending && !takes))
            && (line.kind == TestAttr ==> t == d.(pending := true))
            && (takes || d.inBlock ==> t.depth == depth && t.blockDepth == from)
            && (line.kind != TestAttr ==> (t.inBlock <==> (takes || d.inBlock) && depth > from))
  {
  }

  /** One more line, in terms of what the text before it says. */
  lemma DepNext(lines: seq<Line>, i: nat)
    requires 0 < i <= |lines| && DepInText(lines, i - 1)
    ensures var (d, t, line) := (DepAfter(lines, i - 1), DepAfter(lines, i), lines[i - 1]);
            var takes := DepTakes(lines, i - 1);
            var from := if takes then d.depth else d.blockDepth;
            && (t.pending <==> line.kind == TestAttr || (DepExpects(lines, i - 1) && line.opens == 0))
            && (d.inBlock <==> DepSkips(lines, i - 1))
            && DepDepthIs(lines, i - 1, d.depth - d.blockDepth)
            && (takes ==> line.kind != TestAttr)
            && (takes || d.inBlock ==>
                  && t.depth == d.depth + (if line.kind == TestAttr then 0 else line.Delta())
                  && t.blockDepth == from)
            && (t.inBlock <==> if line.kind == TestAttr then d.inBlock else (takes || d.inBlock) && t.depth > from)
  {
    hide DepExpects, DepSkips, DepDepthIs;
    DepStepMeaning(DepAfter(lines, i - 1), lines[i - 1]);
    hide DepStep;
  }

  lemma DepPendingNext(lines: seq<Line>, i: nat)
    requires 0 < i <= |lines| && DepInText(lines, i - 1)
    ensures DepAfter(lines, i).pending <==> DepExpects(lines, i)
  {
    DepNext(lines, i);
    DepExpectsNext(lines, i - 1);
  }

  lemma NothingTaken(lines: seq<Line>)
    ensures !DepSkips(lines, 0) && !DepExpects(lines, 0) && DepDepthIs(lines, 0, 0)
  {
  }

  lemma DepDepthNext(lines: seq<Line>, i: nat, s: nat)
    requires 0 < i <= |lines| && DepInText(lines, i - 1) && DepCovers(lines, s, i)
    ensures var d := DepAfter(lines, i); d.inBlock && d.depth - d.blockDepth == DepBraces(lines[s..i])
  {
    hide *;
    var j, d := i - 1, DepAfter(lines, i - 1);
    DepNext(lines, i);
    DepCoversBefore(lines, s, i);
    DepCoversNext(lines, s, j);
    if s < j {
      DepCovered(lines, s, j);
      DepDepthAt(lines, j, d.depth - d.blockDepth, s);
      DepCoversPositive(lines, s, j);
    }
  }

  lemma DepStays(lines: seq<Line>, i: nat) returns (s: nat)
    requires 0 < i <= |lines| && DepInText(lines, i - 1) && DepAfter(lines, i).inBlock
    ensures DepCovers(lines, s, i)
  {
    hide *;
    var j, d := i - 1, DepAfter(lines, i - 1);
    DepNext(lines, i);
    s := j;
    if !DepTakes(lines, j) {
      s := DepCovering(lines, j);
      DepCoversBefore(lines, s, j);
      DepDepthAt(lines, j, d.depth - d.blockDepth, s);
      DepCoversPositive(lines, s, j);
    }
    DepCoversNext(lines, s, j);
  }

  lemma {:induction false} DepStateInText(lines: seq<Line>, i: nat)
    requires i <= |lines|
    ensures DepInText(lines, i)
  {
    if i > 0 {
      DepStateInText(lines, i - 1);
      DepPendingNext(lines, i);
      hide DepStep, DepAfter, DepExpects, DepCovers, DepBraces;
      if DepAfter(lines, i).inBlock {
        var s := DepStays(lines, i);
        assert DepCovers(lines, s, i);
      }
      forall s: nat | DepCovers(lines, s, i)
        ensures DepAfter(lines, i).inBlock
                && DepAfter(lines, i).depth - DepAfter(lines, i).blockDepth == DepBraces(lines[s..i])
      {
        DepDepthNext(lines, i, s);
      }
    } else {
      NothingTaken(lines);
    }
  }

  lemma {:induction false} DepKeptFrom(lines: seq<Line>, i: nat)
    requires i <= |lines|
    ensures |DepKept(FRESH_DEP, lines)| == |lines|
    ensures DepKept(FRESH_DEP, lines)[i..] == DepKept(DepAfter(lines, i), lines[i..])
  {
    DepKeptLength(FRESH_DEP, lines);
    if i == 0 {
      assert lines[0..] == lines;
    } else {
      DepKeptFrom(lines, i - 1);
      assert lines[i - 1..][1..] == lines[i..];
      assert DepKept(FRESH_DEP, lines)[i..] == DepKept(FRESH_DEP, lines)[i - 1..][1..];
    }
  }

  /** Whatever the file, the dependency scanner leaves out exactly the plain test attributes, whatever opens
      the next brace after one, and the lines up to the one that closes what it took last. */
  lemma DepMeaning(lines: seq<Line>, i: nat)
    requires i < |lines|
    ensures |DepKept(FRESH_DEP, lines)| == |lines|
    ensures DepKept(FRESH_DEP, lines)[i] <==>
            lines[i].kind != TestAttr && !DepTakes(lines, i) && !DepSkips(lines, i)
  {
    DepKeptFrom(lines, i);
    DepStateInText(lines, i);
    assert DepKept(FRESH_DEP, lines)[i] == DepKept(FRESH_DEP, lines)[i..][0];
  }

  ghost function Picked(lines: seq<Line>, kept: seq<bool>): seq<Option<Line>>
    requires |lines| == |kept|
  {
    seq(|lines|, i requires 0 <= i < |lines| => if kept[i] then Some(lines[i]) else None)
  }

  /** Selecting keeps the marked lines, in order. */
  lemma {:induction false} SelectMeaning(lines: seq<Line>, kept: seq<bool>)
    requires |lines| == |kept|
    ensures Select(lines, kept) == Values(Picked(lines, kept))
  {
    if lines != [] {
      var first := if kept[0] then Some(lines[0]) else None;
      assert Picked(lines, kept) == [first] + Picked(lines[1..], kept[1..]);
      ValuesCons(first, Picked(lines[1..], kept[1..]));
      SelectMeaning(lines[1..], kept[1..]);
    }
  }

  ghost function BudgetSees(lines: seq<Line>): seq<bool> {
    seq(|lines|, i requires 0 <= i < |lines| =>
      !IsTestAttr(lines[i]) && !BudgetTakes(lines, i) && !BudgetSkips(lines, i))
  }

  ghost function DepSees(lines: seq<Line>): seq<bool> {
    seq(|lines|, i requires 0 <= i < |lines| =>
      lines[i].kind != TestAttr && !DepTakes(lines, i) && !DepSkips(lines, i))
  }

  lemma SeesMeaning(lines: seq<Line>)
    ensures BudgetKept(FRESH_BUDGET, lines) == BudgetSees(lines) && DepKept(FRESH_DEP, lines) == DepSees(lines)
  {
    hide BudgetTakes, BudgetSkips, DepTakes, DepSkips;
    BudgetKeptLength(FRESH_BUDGET, lines);
    DepKeptLength(FRESH_DEP, lines);
    forall i | 0 <= i < |lines|
      ensures BudgetKept(FRESH_BUDGET, lines)[i] == BudgetSees(lines)[i]
              && DepKept(FRESH_DEP, lines)[i] == DepSees(lines)[i]
    {
      BudgetMeaning(lines, i);
      DepMeaning(lines, i);
    }
  }

  // ----- exact agreement

  /** No test attribute stands inside a test item, and none that only the budget scanner recognises
      shares its line with an opening brace. */
  ghost predicate Flat(lines: seq<Line>) {
    forall i :: 0 <= i < |lines| ==>
      && (lines[i].kind == TestAttr ==> forall s: nat :: !Covers(lines, s, i))
      && (lines[i].kind == OtherTestAttr ==> lines[i].opens == 0)
  }

  lemma {:induction false} FlatIsShown(lines: seq<Line>, i: nat)
    requires Flat(lines) && i <= |lines| && InStep(START, lines[..i])
    ensures Shown(After(START, lines[..i]), lines[i..])
    decreases |lines| - i
  {
    if i < |lines| {
      var s := After(START, lines[..i]);
      OpenInText(lines, i);
      assert !Hides(s, lines[i]);
      if KeepsStep(s, lines[i]) {
        assert lines[..i + 1] == lines[..i] + [lines[i]];
        assert lines[..i + 1][..i] == lines[..i];
        InStepSnoc(START, lines[..i], lines[i]);
        FlatIsShown(lines, i + 1);
      }
      assert lines[i..][1..] == lines[i + 1..];
    }
  }

  /** On all such files the scanners keep the same lines if and only if the file is in step. */
  lemma AgreeIff(lines: seq<Line>)
    requires Flat(lines)
    ensures BudgetKept(FRESH_BUDGET, lines) == DepKept(FRESH_DEP, lines) <==> InStep(START, lines)
  {
    assert lines[..0] == [] && lines[0..] == lines;
    FlatIsShown(lines, 0);
    ShownAgreeIff(START, FRESH_BUDGET, FRESH_DEP, lines);
  }

  // ----- the two loops

  /** The lines the budgets count. */
  method ProductionLines(lines: seq<Line>) returns (output: seq<Line>)
    ensures output == Select(lines, BudgetSees(lines))
    ensures InStep(START, lines) ==> output == Select(lines, NotTestOnly(lines))
  {
    hide BudgetKept, DepKept, Select, NotTestOnly, InStep, BudgetSees, DepSees;
    output := [];
    var skipStack: seq<int> := [];
    var pending := false;
    BudgetKeptLength(FRESH_BUDGET, lines);
    ghost var goal := Select(lines, BudgetKept(FRESH_BUDGET, lines));
    assert lines[0..] == lines;
    for i := 0 to |lines|
      invariant AtMostOneBlock(BudgetState(skipStack, pending))
      invariant |BudgetKept(BudgetState(skipStack, pending), lines[i..])| == |lines| - i
      invariant output + Select(lines[i..], BudgetKept(BudgetState(skipStack, pending), lines[i..])) == goal
    {
      var line := lines[i];
      ghost var before := BudgetState(skipStack, pending);
      BudgetAdvance(before, lines, i);
      AtMostOneBlockKept(before, line);
      if SumOf(skipStack) == 0 {
        if pending && line.kind == Item {
          if line.Delta() > 0 {
            skipStack := skipStack + [line.Delta()];
          }
          pending := false;
        } else {
          if pending && (line.kind.Item? || line.kind.Code?) {
            pending := false;
          }
          if line.kind == TestAttr || line.kind == OtherTestAttr {
            pending := true;
          } else {
            output := output + [line];
          }
        }
      } else {
        skipStack := skipStack[|skipStack| - 1 := skipStack[|skipStack| - 1] + line.Delta()];
        if skipStack[|skipStack| - 1] <= 0 {
          skipStack := skipStack[..|skipStack| - 1];
        }
      }
      assert BudgetState(skipStack, pending) == BudgetStep(before, line).0;
    }
    NothingLeft(BudgetState(skipStack, pending), lines);
    SeesMeaning(lines);
    if InStep(START, lines) {
      KeptMeaning(lines);
    }
  }

  /** The lines the dependency analysis searches for references. */
  method LibraryLines(lines: seq<Line>) returns (output: seq<Line>)
    ensures output == Select(lines, DepSees(lines))
    ensures InStep(START, lines) ==> output == Select(lines, NotTestOnly(lines))
  {
    hide BudgetKept, DepKept, Select, NotTestOnly, InStep, BudgetSees, DepSees;
    output := [];
    var inTestBlock, testBlockDepth, depth, pending := false, 0, 0, false;
    DepKeptLength(FRESH_DEP, lines);
    ghost var goal := Select(lines, DepKept(FRESH_DEP, lines));
    assert lines[0..] == lines;
    for i := 0 to |lines|
      invariant |DepKept(DepState(inTestBlock, testBlockDepth, depth, pending), lines[i..])| == |lines| - i
      invariant output + Select(lines[i..], DepKept(DepState(inTestBlock, testBlockDepth, depth, pending), lines[i..]))
                == goal
    {
      var line := lines[i];
      ghost var before := DepState(inTestBlock, testBlockDepth, depth, pending);
      DepAdvance(before, lines, i);
      if line.kind == TestAttr {
        pending := true;
        continue;
      }
      if pending && line.opens > 0 {
        inTestBlock := true;
        testBlockDepth := depth;
        pending := false;
      }
      if inTestBlock {
        depth := depth + line.Delta();
        if depth <= testBlockDepth {
          inTestBlock := false;
        }
        continue;
      }
      depth := depth + line.Delta();
      output := output + [line];
    }
    NothingLeftDep(DepState(inTestBlock, testBlockDepth, depth, pending), lines);
    SeesMeaning(lines);
    if InStep(START, lines) {
      KeptMeaning(lines);
    }
  }
}
