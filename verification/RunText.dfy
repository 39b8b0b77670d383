/** The children of one WordprocessingML run and the consolidation of its text
    elements (`_consolidate_text_elements`).  Children are values addressed by their
    position in the run; the run itself is an object whose child list is rewritten in
    place.
 */
module RunText {
  import opened Basics
  import opened Wrappers

  datatype TextTag = T | DelText

  /** One DOM child of a run.  `Text` is a w:t or w:delText element holding character data
      only; `Item` is any other element, known by its serialisation; `Chars` is a text node
      lying directly in the run; `Inert` is a comment, CDATA section or processing
      instruction. */
  datatype Child =
    | RPr(xml: string)
    | Text(tag: TextTag, text: string, space: Option<string>)
    | Item(xml: string)
    | Chars(data: string)
    | Inert

  const XML_SPACE: set<char> := {' ', '\t', '\r', '\n'}

  function StripLeft(s: string): string {
    if s != "" && s[0] in XML_SPACE then StripLeft(s[1..]) else s
  }

  function StripRight(s: string): string {
    if s != "" && s[|s| - 1] in XML_SPACE then StripRight(s[..|s| - 1]) else s
  }

  function Strip(s: string): string {
    StripRight(StripLeft(s))
  }

  predicate IsText(c: Child, tag: TextTag) {
    c.Text? && c.tag == tag
  }

  predicate HasPreserve(c: Child)
    requires c.Text?
  {
    c.space == Some("preserve")
  }

  /** What Word draws for a text element: edge whitespace is trimmed unless preserved. */
  function RenderedText(c: Child): string
    requires c.Text?
  {
    if HasPreserve(c) then c.text else Strip(c.text)
  }

  /** Exactly the spaces, tabs, carriage returns and line feeds at the two ends are trimmed. */
  lemma StripIs(s: string)
    ensures |Strip(s)| <= |StripLeft(s)| <= |s|
    ensures var i := |s| - |StripLeft(s)|;
      var j := i + |Strip(s)|;
      && Strip(s) == s[i..j]
      && (forall k | 0 <= k < i :: s[k] in {' ', '\t', '\r', '\n'})
      && (forall k | j <= k < |s| :: s[k] in {' ', '\t', '\r', '\n'})
      && (i < j ==> s[i] !in {' ', '\t', '\r', '\n'} && s[j - 1] !in {' ', '\t', '\r', '\n'})
  {
    hide StripLeft, StripRight;
    var t := StripLeft(s);
    StripLeftIs(s);
    StripRightIs(t);
    var i, n := |s| - |t|, |Strip(s)|;
    assert t[..n] == s[i..i + n];
    assert forall k | i <= k < |s| :: s[k] == t[k - i];
  }

  lemma {:induction false} StripLeftIs(s: string)
    ensures |StripLeft(s)| <= |s|
    ensures var i := |s| - |StripLeft(s)|;
      && StripLeft(s) == s[i..] && (forall k | 0 <= k < i :: s[k] in XML_SPACE)
      && (i < |s| ==> s[i] !in XML_SPACE)
  {
    if s != "" && s[0] in XML_SPACE {
      StripLeftIs(s[1..]);
      assert forall k | 1 <= k < |s| :: s[k] == s[1..][k - 1];
    }
  }

  lemma {:induction false} StripRightIs(s: string)
    ensures |StripRight(s)| <= |s|
    ensures var j := |StripRight(s)|;
      && StripRight(s) == s[..j] && (forall k | j <= k < |s| :: s[k] in XML_SPACE)
      && (j > 0 ==> s[j - 1] !in XML_SPACE)
  {
    if s != "" && s[|s| - 1] in XML_SPACE {
      StripRightIs(s[..|s| - 1]);
    }
  }

  // ---------------------------------------------------------------- rendering

  datatype Atom = Glyph(tag: TextTag, ch: char) | Object(xml: string) | OutsideRun(xml: string)

  /** A drawn atom together with the run formatting that applies to it. */
  datatype Drawn = Drawn(format: Option<string>, atom: Atom)

  function DrawText(format: Option<string>, tag: TextTag, s: string): seq<Drawn> {
    seq(|s|, i requires 0 <= i < |s| => Drawn(format, Glyph(tag, s[i])))
  }

  function DrawChild(format: Option<string>, c: Child): seq<Drawn> {
    match c
    case Text(tag, _, _) => DrawText(format, tag, RenderedText(c))
    case Item(xml) => [Drawn(format, Object(xml))]
    case _ => []
  }

  function Draw(format: Option<string>, cs: seq<Child>): seq<Drawn> {
    if cs == [] then [] else DrawChild(format, cs[0]) + Draw(format, cs[1..])
  }

  /** The run's formatting: the serialisation of its first rPr child, if any. */
  function Format(cs: seq<Child>): Option<string> {
    if cs == [] then None else if cs[0].RPr? then Some(cs[0].xml) else Format(cs[1..])
  }

  function DrawRun(cs: seq<Child>): seq<Drawn> {
    Draw(Format(cs), cs)
  }

  lemma {:induction false} DrawAppend(format: Option<string>, a: seq<Child>, b: seq<Child>)
    ensures Draw(format, a + b) == Draw(format, a) + Draw(format, b)
  {
    hide DrawChild;
    if a == [] {
      assert a + b == b;
    } else {
      DrawAppend(format, a[1..], b);
      assert (a + b)[1..] == a[1..] + b;
      Associative(DrawChild(format, a[0]), Draw(format, a[1..]), Draw(format, b));
    }
  }

  /** What each kind of child draws: text its rendered characters, one by one; another element
      itself; everything else nothing. */
  lemma DrawOne(format: Option<string>, c: Child)
    ensures Draw(format, []) == []
    ensures c.Text? ==>
      var rendered := if c.space == Some("preserve") then c.text else Strip(c.text);
      |Draw(format, [c])| == |rendered| && forall k | 0 <= k < |rendered| :: Draw(format, [c])[k] == Drawn(format, Glyph(c.tag, rendered[k]))
    ensures c.Item? ==> Draw(format, [c]) == [Drawn(format, Object(c.xml))]
    ensures !c.Text? && !c.Item? ==> Draw(format, [c]) == []
  {
    hide Strip;
    assert [c][1..] == [];
    Unit(DrawChild(format, c));
  }

  /** The formatting is that of the first rPr among the children, character for character. */
  lemma {:induction false} FormatIs(cs: seq<Child>)
    ensures forall xml ::
      Format(cs) == Some(xml) <==> exists i: nat :: i < |cs| && cs[i] == RPr(xml) && forall k: nat | k < i :: !cs[k].RPr?
    ensures Format(cs) == None <==> forall i: nat | i < |cs| :: !cs[i].RPr?
  {
    if cs != [] && !cs[0].RPr? {
      FormatIs(cs[1..]);
      forall xml
        ensures Format(cs) == Some(xml)
          <==> exists i: nat :: i < |cs| && cs[i] == RPr(xml) && forall k: nat | k < i :: !cs[k].RPr?
      {
        if i: nat :| i < |cs| && cs[i] == RPr(xml) && forall k: nat | k < i :: !cs[k].RPr? {
          assert cs[1..][i - 1] == RPr(xml) && forall k: nat | k < i - 1 :: !cs[1..][k].RPr?;
        }
        if Format(cs) == Some(xml) {
          var i: nat :| i < |cs[1..]| && cs[1..][i] == RPr(xml) && forall k: nat | k < i :: !cs[1..][k].RPr?;
          assert cs[i + 1] == RPr(xml) && forall k: nat | k < i + 1 :: !cs[k].RPr?;
        }
      }
      assert forall i: nat | i < |cs| :: cs[i].RPr? ==> i > 0 && cs[1..][i - 1].RPr?;
      assert forall i: nat | i < |cs[1..]| :: cs[1..][i] == cs[i + 1];
    }
  }

  lemma {:induction false} FormatAppend(a: seq<Child>, b: seq<Child>)
    ensures Format(a + b) == if Format(a).Some? then Format(a) else Format(b)
  {
    if a == [] {
      assert a + b == b;
    } else {
      FormatAppend(a[1..], b);
      assert (a + b)[1..] == a[1..] + b;
    }
  }

  // ---------------------------------------------------------------- adjacency

  /** A child that ends the walk of `_is_adjacent`: an element, or a text node that is
      not blank. */
  predicate Blocks(c: Child) {
    c.RPr? || c.Text? || c.Item? || (c.Chars? && Strip(c.data) != "")
  }

  /** A text node does not count while it holds nothing but white space. */
  lemma BlocksIs(c: Child)
    ensures c.RPr? || c.Text? || c.Item? ==> Blocks(c)
    ensures c.Chars? ==> (Blocks(c) <==> exists k :: 0 <= k < |c.data| && c.data[k] !in {' ', '\t', '\r', '\n'})
    ensures c.Inert? ==> !Blocks(c)
  {
    hide Strip, StripLeft, StripRight;
    if c.Chars? {
      StripIs(c.data);
    }
  }

  predicate Adjacent(cs: seq<Child>, i: nat, j: nat) {
    i < j < |cs| && forall k | i < k < j :: !Blocks(cs[k])
  }

  /** No two adjacent elements carry `tag`. */
  ghost predicate NoAdjacentText(cs: seq<Child>, tag: TextTag) {
    forall i: nat, j: nat :: Adjacent(cs, i, j) ==> !(IsText(cs[i], tag) && IsText(cs[j], tag))
  }

  // ---------------------------------------------------------------- specification

  /** Offset of the text element that `cs` starts with, after children that do not block. */
  function AdjacentOffset(cs: seq<Child>, tag: TextTag): Option<nat> {
    if cs == [] then None
    else if IsText(cs[0], tag) then Some(0)
    else if Blocks(cs[0]) then None
    else match AdjacentOffset(cs[1..], tag)
      case None => None
      case Some(j) => Some(j + 1)
  }

  lemma {:induction false} AdjacentOffsetIs(cs: seq<Child>, tag: TextTag)
    ensures match AdjacentOffset(cs, tag)
      case Some(j) => j < |cs| && IsText(cs[j], tag) && (forall k | 0 <= k < j :: !Blocks(cs[k]))
      case None => forall j: nat | j < |cs| && IsText(cs[j], tag) :: exists k: nat :: k < j && Blocks(cs[k])
  {
    if cs != [] && !IsText(cs[0], tag) && !Blocks(cs[0]) {
      AdjacentOffsetIs(cs[1..], tag);
      match AdjacentOffset(cs[1..], tag)
      case Some(j) =>
        forall k | 0 <= k < j + 1 ensures !Blocks(cs[k]) {
          if k > 0 { assert cs[k] == cs[1..][k - 1]; }
        }
      case None =>
        forall j: nat | j < |cs| && IsText(cs[j], tag)
          ensures exists k: nat :: k < j && Blocks(cs[k])
        {
          assert cs[j] == cs[1..][j - 1];
          var k: nat :| k < j - 1 && Blocks(cs[1..][k]);
          assert Blocks(cs[k + 1]);
        }
    } else if cs != [] && !IsText(cs[0], tag) {
      forall j: nat | j < |cs| && IsText(cs[j], tag)
        ensures exists k: nat :: k < j && Blocks(cs[k])
      {
        assert Blocks(cs[0]) && 0 < j;
      }
    }
  }

  /** The element that replaces `prev` when `curr` is folded into it. */
  function MergedText(prev: Child, curr: Child): (r: Child)
    requires prev.Text? && curr.Text?
    ensures r.Text? && r.tag == prev.tag
    ensures RenderedText(r) == RenderedText(prev) + RenderedText(curr)
    ensures HasPreserve(r) <==> HasPreserve(prev) || HasPreserve(curr) || r.text != Strip(r.text)
    ensures HasPreserve(r) || r.space.None?
  {
    var merged := RenderedText(prev) + RenderedText(curr);
    var space :=
      if merged != Strip(merged) || HasPreserve(prev) || HasPreserve(curr) then Some("preserve") else None;
    Text(prev.tag, merged, space)
  }

  function Glue(c: Child, rest: seq<Child>, tag: TextTag): seq<Child> {
    if !IsText(c, tag) then [c] + rest
    else match AdjacentOffset(rest, tag)
      case None => [c] + rest
      case Some(j) =>
        AdjacentOffsetIs(rest, tag);
        [MergedText(c, rest[j])] + rest[..j] + rest[j + 1..]
  }

  /** Right-to-left consolidation of the elements carrying `tag`. */
  function Consolidated(cs: seq<Child>, tag: TextTag): seq<Child> {
    if cs == [] then [] else Glue(cs[0], Consolidated(cs[1..], tag), tag)
  }

  /** `_consolidate_text`: w:t first, then w:delText. */
  function ConsolidatedRun(cs: seq<Child>): seq<Child> {
    Consolidated(Consolidated(cs, T), DelText)
  }

  // ---------------------------------------------------------------- step by step

  /** One fold: the second of two adjacent elements carrying `tag` is joined to the first. */
  ghost predicate Folds(a: seq<Child>, b: seq<Child>, tag: TextTag, i: nat, j: nat) {
    && Adjacent(a, i, j) && IsText(a[i], tag) && IsText(a[j], tag)
    && b == a[..i] + [MergedText(a[i], a[j])] + a[i + 1..j] + a[j + 1..]
  }

  ghost predicate FoldsIn(a: seq<Child>, b: seq<Child>, tag: TextTag, n: nat)
    decreases n
  {
    if n == 0 then a == b
    else exists mid, i, j :: FoldsIn(a, mid, tag, n - 1) && Folds(mid, b, tag, i, j)
  }

  lemma {:induction false} FoldsUnder(c: Child, a: seq<Child>, b: seq<Child>, tag: TextTag, n: nat)
    requires FoldsIn(a, b, tag, n)
    ensures FoldsIn([c] + a, [c] + b, tag, n)
    decreases n
  {
    hide Folds;
    if n > 0 {
      var mid, i, j :| FoldsIn(a, mid, tag, n - 1) && Folds(mid, b, tag, i, j);
      FoldsUnder(c, a, mid, tag, n - 1);
      FoldUnder(c, mid, b, tag, i, j);
    }
  }

  lemma FoldUnder(c: Child, a: seq<Child>, b: seq<Child>, tag: TextTag, i: nat, j: nat)
    requires Folds(a, b, tag, i, j)
    ensures Folds([c] + a, [c] + b, tag, i + 1, j + 1)
  {
    hide MergedText;
    var d := [c] + a;
    assert d[i + 1] == a[i] && d[j + 1] == a[j];
    assert Adjacent(d, i + 1, j + 1) by {
      assert forall k | i + 1 < k < j + 1 :: d[k] == a[k - 1];
    }
    SliceUnder(c, a, i, j);
    Associative([c], a[..i], [MergedText(a[i], a[j])]);
    Associative([c], a[..i] + [MergedText(a[i], a[j])], a[i + 1..j]);
    Associative([c], a[..i] + [MergedText(a[i], a[j])] + a[i + 1..j], a[j + 1..]);
  }

  lemma SliceUnder(c: Child, a: seq<Child>, i: nat, j: nat)
    requires i < j < |a|
    ensures var d := [c] + a;
      d[..i + 1] == [c] + a[..i] && d[i + 2..j + 1] == a[i + 1..j] && d[j + 2..] == a[j + 1..]
  {
  }

  /** Consolidation does nothing but fold adjacent pairs, one for every element that is lost. */
  lemma {:induction false} ConsolidatedByFolds(cs: seq<Child>, tag: TextTag)
    ensures |Consolidated(cs, tag)| <= |cs|
    ensures FoldsIn(cs, Consolidated(cs, tag), tag, |cs| - |Consolidated(cs, tag)|)
  {
    hide Glue, FoldsIn;
    if cs == [] {
      NoFolds(cs, tag);
    } else {
      ConsolidatedByFolds(cs[1..], tag);
      assert [cs[0]] + cs[1..] == cs;
      GlueByFolds(cs[0], cs[1..], Consolidated(cs[1..], tag), tag);
    }
  }

  lemma NoFolds(cs: seq<Child>, tag: TextTag)
    ensures FoldsIn(cs, cs, tag, 0)
  {
  }

  lemma GlueByFolds(c: Child, a: seq<Child>, rest: seq<Child>, tag: TextTag)
    requires |rest| <= |a| && FoldsIn(a, rest, tag, |a| - |rest|)
    ensures |Glue(c, rest, tag)| <= |a| + 1
    ensures FoldsIn([c] + a, Glue(c, rest, tag), tag, |a| + 1 - |Glue(c, rest, tag)|)
  {
    hide Folds, Glue, FoldsIn;
    var n: nat := |a| - |rest|;
    FoldsUnder(c, a, rest, tag, n);
    GlueFolds(c, rest, tag);
    if IsText(c, tag) && AdjacentOffset(rest, tag).Some? {
      OneMoreFold([c] + a, [c] + rest, Glue(c, rest, tag), tag, n, 0, AdjacentOffset(rest, tag).value + 1);
    }
  }

  lemma OneMoreFold(a: seq<Child>, mid: seq<Child>, b: seq<Child>, tag: TextTag, n: nat, i: nat, j: nat)
    requires FoldsIn(a, mid, tag, n) && Folds(mid, b, tag, i, j)
    ensures FoldsIn(a, b, tag, n + 1)
  {
    hide Folds;
  }

  lemma GlueFolds(c: Child, rest: seq<Child>, tag: TextTag)
    ensures if IsText(c, tag) && AdjacentOffset(rest, tag).Some?
      then |Glue(c, rest, tag)| == |rest| && Folds([c] + rest, Glue(c, rest, tag), tag, 0, AdjacentOffset(rest, tag).value + 1)
      else Glue(c, rest, tag) == [c] + rest
  {
    AdjacentOffsetIs(rest, tag);
    if IsText(c, tag) && AdjacentOffset(rest, tag).Some? {
      var j := AdjacentOffset(rest, tag).value + 1;
      var d := [c] + rest;
      assert d[0] == c && d[j] == rest[j - 1] && forall k | 0 < k < j :: d[k] == rest[k - 1];
      assert d[..0] == [] && d[1..j] == rest[..j - 1] && d[j + 1..] == rest[j..];
      Unit([MergedText(c, rest[j - 1])]);
    }
  }

  // ---------------------------------------------------------------- rendering is kept

  lemma {:induction false} DrawNonBlocking(format: Option<string>, cs: seq<Child>)
    requires forall k | 0 <= k < |cs| :: !Blocks(cs[k])
    ensures Draw(format, cs) == [] && Format(cs) == None
  {
    if cs != [] {
      assert !Blocks(cs[0]);
      DrawNonBlocking(format, cs[1..]);
    }
  }

  lemma DrawTextAppend(format: Option<string>, tag: TextTag, a: string, b: string)
    ensures DrawText(format, tag, a + b) == DrawText(format, tag, a) + DrawText(format, tag, b)
  {
  }

  /** Two text elements with nothing that blocks between them draw the same once folded. */
  lemma FoldKeepsDrawing(format: Option<string>, prev: Child, gap: seq<Child>, curr: Child, tail: seq<Child>)
    requires prev.Text? && curr.Text? && prev.tag == curr.tag
    requires forall k | 0 <= k < |gap| :: !Blocks(gap[k])
    ensures Draw(format, [MergedText(prev, curr)] + (gap + tail)) == Draw(format, [prev] + (gap + ([curr] + tail)))
  {
    var m := MergedText(prev, curr);
    var rest := Draw(format, tail);
    DrawNonBlocking(format, gap);
    DrawAppend(format, gap, tail);
    DrawAppend(format, gap, [curr] + tail);
    DrawHead(format, m, gap + tail);
    DrawHead(format, prev, gap + ([curr] + tail));
    DrawHead(format, curr, tail);
    DrawTextAppend(format, prev.tag, RenderedText(prev), RenderedText(curr));
    assert DrawChild(format, m) == DrawChild(format, prev) + DrawChild(format, curr);
    Associative(DrawChild(format, prev), DrawChild(format, curr), rest);
    assert [] + Draw(format, [curr] + tail) == Draw(format, [curr] + tail);
    assert [] + rest == rest;
  }

  lemma DrawHead(format: Option<string>, c: Child, cs: seq<Child>)
    ensures Draw(format, [c] + cs) == DrawChild(format, c) + Draw(format, cs)
  {
    assert ([c] + cs)[1..] == cs;
  }

  lemma FoldKeepsFormat(prev: Child, gap: seq<Child>, curr: Child, tail: seq<Child>)
    requires prev.Text? && curr.Text?
    ensures Format([MergedText(prev, curr)] + (gap + tail)) == Format([prev] + (gap + ([curr] + tail)))
  {
    FormatAppend([MergedText(prev, curr)], gap + tail);
    FormatAppend(gap, tail);
    FormatAppend([prev], gap + ([curr] + tail));
    FormatAppend(gap, [curr] + tail);
    FormatAppend([curr], tail);
  }

  lemma {:induction false} GlueKeepsDrawing(format: Option<string>, c: Child, rest: seq<Child>, tag: TextTag)
    ensures Draw(format, Glue(c, rest, tag)) == Draw(format, [c] + rest)
    ensures Format(Glue(c, rest, tag)) == Format([c] + rest)
  {
    if IsText(c, tag) && AdjacentOffset(rest, tag).Some? {
      AdjacentOffsetIs(rest, tag);
      var j := AdjacentOffset(rest, tag).value;
      var gap, tail := rest[..j], rest[j + 1..];
      assert rest == gap + ([rest[j]] + tail);
      Associative([MergedText(c, rest[j])], gap, tail);
      FoldKeepsDrawing(format, c, gap, rest[j], tail);
      FoldKeepsFormat(c, gap, rest[j], tail);
    }
  }

  lemma {:induction false} ConsolidatedKeepsDrawing(format: Option<string>, cs: seq<Child>, tag: TextTag)
    ensures Draw(format, Consolidated(cs, tag)) == Draw(format, cs)
    ensures Format(Consolidated(cs, tag)) == Format(cs)
  {
    if cs != [] {
      var rest := Consolidated(cs[1..], tag);
      ConsolidatedKeepsDrawing(format, cs[1..], tag);
      GlueKeepsDrawing(format, cs[0], rest, tag);
      assert cs == [cs[0]] + cs[1..];
      DrawAppend(format, [cs[0]], rest);
      DrawAppend(format, [cs[0]], cs[1..]);
      FormatAppend([cs[0]], rest);
      FormatAppend([cs[0]], cs[1..]);
    }
  }

  /** Consolidating a run changes neither its formatting nor anything it draws. */
  lemma ConsolidatedRunKeepsDrawing(cs: seq<Child>)
    ensures DrawRun(ConsolidatedRun(cs)) == DrawRun(cs)
    ensures Format(ConsolidatedRun(cs)) == Format(cs)
  {
    ConsolidatedKeepsDrawing(Format(cs), cs, T);
    ConsolidatedKeepsDrawing(Format(cs), Consolidated(cs, T), DelText);
  }

  // ---------------------------------------------------------------- normal form

  /** The text tag of the first blocking child, if that child is a text element. */
  function Leading(cs: seq<Child>): Option<TextTag> {
    if cs == [] then None
    else if !Blocks(cs[0]) then Leading(cs[1..])
    else if cs[0].Text? then Some(cs[0].tag)
    else None
  }

  /** `NoAdjacentText`, by recursion on the child list. */
  predicate Separated(cs: seq<Child>, tag: TextTag) {
    cs == [] || (Separated(cs[1..], tag) && (IsText(cs[0], tag) ==> Leading(cs[1..]) != Some(tag)))
  }

  lemma {:induction false} LeadingOffset(cs: seq<Child>, tag: TextTag)
    ensures Leading(cs) == Some(tag) <==> AdjacentOffset(cs, tag).Some?
  {
    if cs != [] && !Blocks(cs[0]) {
      LeadingOffset(cs[1..], tag);
    }
  }

  lemma {:induction false} SeparatedIs(cs: seq<Child>, tag: TextTag)
    ensures Separated(cs, tag) <==> NoAdjacentText(cs, tag)
  {
    if cs != [] {
      var rest := cs[1..];
      SeparatedIs(rest, tag);
      LeadingOffset(rest, tag);
      AdjacentOffsetIs(rest, tag);
      if Separated(cs, tag) {
        forall i: nat, j: nat | Adjacent(cs, i, j)
          ensures !(IsText(cs[i], tag) && IsText(cs[j], tag))
        {
          if i > 0 {
            assert forall k | i - 1 < k < j - 1 :: rest[k] == cs[k + 1];
            assert Adjacent(rest, i - 1, j - 1);
          } else if IsText(cs[0], tag) && IsText(cs[j], tag) {
            assert false;
          }
        }
      }
      if NoAdjacentText(cs, tag) {
        forall i: nat, j: nat | Adjacent(rest, i, j)
          ensures !(IsText(rest[i], tag) && IsText(rest[j], tag))
        {
          assert forall k | i + 1 < k < j + 1 :: cs[k] == rest[k - 1];
          assert Adjacent(cs, i + 1, j + 1);
        }
        if IsText(cs[0], tag) && Leading(rest) == Some(tag) {
          var j := AdjacentOffset(rest, tag).value;
          assert forall k | 0 < k < j + 1 :: cs[k] == rest[k - 1];
          assert Adjacent(cs, 0, j + 1);
        }
      }
    }
  }

  lemma {:induction false} LeadingAppend(a: seq<Child>, b: seq<Child>)
    requires forall k | 0 <= k < |a| :: !Blocks(a[k])
    ensures Leading(a + b) == Leading(b)
    ensures forall tag :: Separated(a + b, tag) == Separated(b, tag)
  {
    if a == [] {
      assert a + b == b;
    } else {
      assert !Blocks(a[0]);
      LeadingAppend(a[1..], b);
      assert (a + b)[1..] == a[1..] + b;
    }
  }

  lemma {:induction false} ConsolidatedKeepsLeading(cs: seq<Child>, tag: TextTag)
    ensures Leading(Consolidated(cs, tag)) == Leading(cs)
  {
    if cs != [] {
      ConsolidatedKeepsLeading(cs[1..], tag);
      var rest := Consolidated(cs[1..], tag);
      assert ([cs[0]] + rest)[1..] == rest;
      AdjacentOffsetIs(rest, tag);
    }
  }

  lemma SeparatedCons(c: Child, rest: seq<Child>, tag: TextTag)
    ensures Separated([c] + rest, tag) <==> Separated(rest, tag) && (IsText(c, tag) ==> Leading(rest) != Some(tag))
    ensures Leading([c] + rest) == if !Blocks(c) then Leading(rest) else if c.Text? then Some(c.tag) else None
  {
    assert ([c] + rest)[1..] == rest;
  }

  /** Folding the head of a separated list into an earlier element leaves it separated, for
      the tag that is being consolidated and for the other one. */
  lemma FoldSeparated(m: Child, gap: seq<Child>, curr: Child, tail: seq<Child>, other: TextTag)
    requires m.Text? && curr.Text? && m.tag == curr.tag
    requires forall k | 0 <= k < |gap| :: !Blocks(gap[k])
    requires Separated(gap + ([curr] + tail), other)
    ensures Separated([m] + (gap + tail), other)
  {
    LeadingAppend(gap, [curr] + tail);
    SeparatedCons(curr, tail, other);
    LeadingAppend(gap, tail);
    SeparatedCons(m, gap + tail, other);
  }

  lemma GlueSeparated(c: Child, rest: seq<Child>, tag: TextTag, other: TextTag)
    requires Separated(rest, other)
    requires other == tag || (IsText(c, other) ==> Leading(rest) != Some(other))
    ensures Separated(Glue(c, rest, tag), other)
  {
    LeadingOffset(rest, tag);
    AdjacentOffsetIs(rest, tag);
    if IsText(c, tag) && AdjacentOffset(rest, tag).Some? {
      var j := AdjacentOffset(rest, tag).value;
      var gap, tail := rest[..j], rest[j + 1..];
      assert rest == gap + ([rest[j]] + tail);
      Associative([MergedText(c, rest[j])], gap, tail);
      FoldSeparated(MergedText(c, rest[j]), gap, rest[j], tail, other);
    } else {
      SeparatedCons(c, rest, other);
    }
  }

  lemma {:induction false} ConsolidatedSeparated(cs: seq<Child>, tag: TextTag, other: TextTag)
    requires other == tag || Separated(cs, other)
    ensures Separated(Consolidated(cs, tag), tag) && Separated(Consolidated(cs, tag), other)
  {
    if cs != [] {
      var rest := Consolidated(cs[1..], tag);
      ConsolidatedSeparated(cs[1..], tag, other);
      ConsolidatedKeepsLeading(cs[1..], tag);
      GlueSeparated(cs[0], rest, tag, tag);
      GlueSeparated(cs[0], rest, tag, other);
    }
  }

  lemma {:induction false} ConsolidatedFixed(cs: seq<Child>, tag: TextTag)
    requires Separated(cs, tag)
    ensures Consolidated(cs, tag) == cs
  {
    if cs != [] {
      ConsolidatedFixed(cs[1..], tag);
      LeadingOffset(cs[1..], tag);
      assert cs == [cs[0]] + cs[1..];
    }
  }

  /** After consolidation no two adjacent elements of either tag remain, and a run that is
      already in that form is left alone. */
  lemma ConsolidatedRunNormal(cs: seq<Child>)
    ensures NoAdjacentText(ConsolidatedRun(cs), T) && NoAdjacentText(ConsolidatedRun(cs), DelText)
    ensures NoAdjacentText(cs, T) && NoAdjacentText(cs, DelText) ==> ConsolidatedRun(cs) == cs
  {
    ConsolidatedSeparated(cs, T, T);
    ConsolidatedSeparated(Consolidated(cs, T), DelText, T);
    SeparatedIs(ConsolidatedRun(cs), T);
    SeparatedIs(ConsolidatedRun(cs), DelText);
    SeparatedIs(cs, T);
    SeparatedIs(cs, DelText);
    if NoAdjacentText(cs, T) && NoAdjacentText(cs, DelText) {
      ConsolidatedFixed(cs, T);
      ConsolidatedFixed(cs, DelText);
    }
  }

  // ---------------------------------------------------------------- the in-place algorithm

  /** Positions of the elements carrying `tag`: the list `_get_children` takes before the
      loop starts. */
  function Positions(cs: seq<Child>, tag: TextTag, from: nat): seq<nat>
    requires from <= |cs|
    decreases |cs| - from
  {
    if from == |cs| then []
    else if IsText(cs[from], tag) then [from] + Positions(cs, tag, from + 1)
    else Positions(cs, tag, from + 1)
  }

  lemma {:induction false} PositionsAre(cs: seq<Child>, tag: TextTag, from: nat)
    requires from <= |cs|
    ensures forall p :: p in Positions(cs, tag, from) <==> from <= p < |cs| && IsText(cs[p], tag)
    ensures Increasing(Positions(cs, tag, from))
    decreases |cs| - from
  {
    if from < |cs| {
      PositionsAre(cs, tag, from + 1);
      var rest := Positions(cs, tag, from + 1);
      if IsText(cs[from], tag) {
        assert forall k | 0 <= k < |rest| :: rest[k] in rest;
        IncreasingCons(from, rest);
      }
    }
  }

  /** The child list once the loop has reached the element at position `ts[i]`. */
  ghost function Progress(cs: seq<Child>, tag: TextTag, ts: seq<nat>, i: nat): seq<Child>
    requires i < |ts| && ts[i] < |cs|
  {
    cs[..ts[i]] + Consolidated(cs[ts[i]..], tag)
  }

  lemma {:induction false} ConsolidatedSkips(a: seq<Child>, b: seq<Child>, tag: TextTag)
    requires forall k | 0 <= k < |a| :: !IsText(a[k], tag)
    ensures Consolidated(a + b, tag) == a + Consolidated(b, tag)
  {
    if a == [] {
      assert a + b == b;
    } else {
      ConsolidatedSkips(a[1..], b, tag);
      assert (a + b)[1..] == a[1..] + b;
      assert (a + b)[0] == a[0] && !IsText(a[0], tag);
      Associative([a[0]], a[1..], Consolidated(b, tag));
      assert [a[0]] + a[1..] == a;
    }
  }

  lemma {:induction false} AdjacentOffsetPast(gap: seq<Child>, b: seq<Child>, tag: TextTag)
    requires forall k | 0 <= k < |gap| :: !IsText(gap[k], tag)
    requires b != [] && IsText(b[0], tag)
    ensures AdjacentOffset(gap + b, tag)
         == if forall k | 0 <= k < |gap| :: !Blocks(gap[k]) then Some(|gap|) else None
  {
    if gap == [] {
      assert gap + b == b;
    } else {
      assert (gap + b)[1..] == gap[1..] + b;
      AdjacentOffsetPast(gap[1..], b, tag);
      assert forall k | 0 <= k < |gap[1..]| :: gap[1..][k] == gap[k + 1];
      if forall k | 0 <= k < |gap[1..]| :: !Blocks(gap[1..][k]) {
        assert forall k | 1 <= k < |gap| :: gap[k] == gap[1..][k - 1];
      }
    }
  }

  /** The tail that the loop has consolidated so far, one element further left. */
  lemma ConsolidatedTail(c: Child, gap: seq<Child>, b: seq<Child>, tag: TextTag)
    requires b != [] && IsText(b[0], tag) && IsText(c, tag)
    requires forall k | 0 <= k < |gap| :: !IsText(gap[k], tag)
    ensures var tail := Consolidated(b, tag);
      && tail != [] && IsText(tail[0], tag)
      && Consolidated([c] + (gap + b), tag)
         == if forall k | 0 <= k < |gap| :: !Blocks(gap[k]) then [MergedText(c, tail[0])] + gap + tail[1..]
            else [c] + (gap + tail)
  {
    var tail := Consolidated(b, tag);
    assert tail != [] && IsText(tail[0], tag);
    ConsolidatedSkips(gap, b, tag);
    assert ([c] + (gap + b))[1..] == gap + b;
    AdjacentOffsetPast(gap, tail, tag);
    assert (gap + tail)[..|gap|] == gap && (gap + tail)[|gap| + 1..] == tail[1..];
    assert (gap + tail)[|gap|] == tail[0];
  }

  lemma AdjacentGap(cs: seq<Child>, p: nat, q: nat)
    requires p < q < |cs|
    ensures var gap := cs[p + 1..q]; Adjacent(cs, p, q) <==> forall k | 0 <= k < |gap| :: !Blocks(gap[k])
  {
    var gap := cs[p + 1..q];
    assert forall k | 0 <= k < |gap| :: gap[k] == cs[p + 1 + k];
    assert forall k | p < k < q :: cs[k] == gap[k - p - 1];
  }

  lemma Splice<X>(cs: seq<X>, tail: seq<X>, p: nat, q: nat, m: X)
    requires p < q < |cs| && tail != []
    ensures var n := (cs[..q] + tail)[p := m]; n[..q] + n[q + 1..] == cs[..p] + ([m] + cs[p + 1..q] + tail[1..])
    ensures cs[..q] + tail == cs[..p] + ([cs[p]] + (cs[p + 1..q] + tail))
  {
  }

  lemma AdjacentInPrefix(cs: seq<Child>, tail: seq<Child>, p: nat, q: nat)
    requires p < q < |cs| && tail != []
    ensures Adjacent(cs[..q] + tail, p, q) == Adjacent(cs, p, q)
  {
    var now := cs[..q] + tail;
    assert forall k | 0 <= k < q :: now[k] == cs[k];
  }

  function PairConsolidated(cs: seq<Child>, p: nat, q: nat): seq<Child>
    requires p < q < |cs| && cs[p].Text? && cs[q].Text?
  {
    if Adjacent(cs, p, q)
    then var n := cs[p := MergedText(cs[p], cs[q])]; n[..q] + n[q + 1..]
    else cs
  }

  /** One step of the right-to-left loop, on the partly rewritten child list `now`. */
  lemma ConsolidateStep(cs: seq<Child>, now: seq<Child>, tag: TextTag, p: nat, q: nat)
    requires p < q < |cs| && IsText(cs[p], tag) && IsText(cs[q], tag)
    requires forall k | p < k < q :: !IsText(cs[k], tag)
    requires now == cs[..q] + Consolidated(cs[q..], tag)
    ensures q < |now| && IsText(now[p], tag) && IsText(now[q], tag)
    ensures PairConsolidated(now, p, q) == cs[..p] + Consolidated(cs[p..], tag)
  {
    var tail := Consolidated(cs[q..], tag);
    assert cs[p..] == [cs[p]] + (cs[p + 1..q] + cs[q..]);
    ConsolidatedTail(cs[p], cs[p + 1..q], cs[q..], tag);
    AdjacentGap(cs, p, q);
    AdjacentInPrefix(cs, tail, p, q);
    assert now[p] == cs[p] && now[q] == tail[0];
    Splice(cs, tail, p, q, MergedText(cs[p], tail[0]));
  }

  /** Before the loop: nothing to do when no element carries `tag`, and the part from the
      last such element on is already consolidated. */
  lemma ConsolidateStart(cs: seq<Child>, tag: TextTag, ts: seq<nat>)
    requires ts == Positions(cs, tag, 0)
    ensures |ts| == 0 ==> Consolidated(cs, tag) == cs
    ensures |ts| > 0 ==> ts[|ts| - 1] < |cs| && cs == Progress(cs, tag, ts, |ts| - 1)
  {
    hide Glue, Positions;
    PositionsAre(cs, tag, 0);
    if |ts| == 0 {
      ConsolidatedSkips(cs, [], tag);
      assert cs + [] == cs;
    } else {
      var last := ts[|ts| - 1];
      assert last in ts;
      assert forall k | last < k < |cs| :: k !in ts;
      ConsolidatedLast(cs[last], cs[last + 1..], tag);
      assert cs[last..] == [cs[last]] + cs[last + 1..];
    }
  }

  lemma ConsolidatedLast(c: Child, rest: seq<Child>, tag: TextTag)
    requires forall k | 0 <= k < |rest| :: !IsText(rest[k], tag)
    ensures Consolidated([c] + rest, tag) == [c] + rest
  {
    ConsolidatedSkips(rest, [], tag);
    assert rest + [] == rest;
    assert ([c] + rest)[1..] == rest;
    AdjacentOffsetIs(rest, tag);
  }

  /** After the loop: nothing before the first such element carries `tag`. */
  lemma ConsolidateEnd(cs: seq<Child>, tag: TextTag, ts: seq<nat>)
    requires ts == Positions(cs, tag, 0) && |ts| > 0
    ensures ts[0] < |cs| && Progress(cs, tag, ts, 0) == Consolidated(cs, tag)
  {
    PositionsAre(cs, tag, 0);
    assert ts[0] in ts;
    assert forall k | 0 <= k < ts[0] :: k !in ts;
    ConsolidatedSkips(cs[..ts[0]], cs[ts[0]..], tag);
    assert cs == cs[..ts[0]] + cs[ts[0]..];
  }

  /** During the loop: one pair of consecutive positions. */
  lemma ConsolidateNext(cs: seq<Child>, tag: TextTag, ts: seq<nat>, i: nat)
    requires ts == Positions(cs, tag, 0) && 0 < i < |ts|
    ensures ts[i - 1] < ts[i] < |cs|
    ensures var now := Progress(cs, tag, ts, i);
      && ts[i] < |now| && now[ts[i - 1]].Text? && now[ts[i]].Text?
      && PairConsolidated(now, ts[i - 1], ts[i]) == Progress(cs, tag, ts, i - 1)
  {
    PositionsAre(cs, tag, 0);
    assert ts[i - 1] in ts && ts[i] in ts;
    forall k | ts[i - 1] < k < ts[i] ensures !IsText(cs[k], tag) {
      forall l | 0 <= l < |ts| ensures ts[l] != k {
        if l < i - 1 {
          assert ts[l] < ts[i - 1];
        } else if i < l {
          assert ts[i] < ts[l];
        }
      }
      assert k !in ts;
    }
    ConsolidateStep(cs, Progress(cs, tag, ts, i), tag, ts[i - 1], ts[i]);
  }

  class Run {
    var children: seq<Child>

    constructor (cs: seq<Child>)
      ensures children == cs
    {
      children := cs;
    }

    /** `_is_adjacent`: walk the siblings after position `i` until `j` or a blocking child. */
    method IsAdjacent(i: nat, j: nat) returns (b: bool)
      requires i < |children| && j < |children|
      ensures b == Adjacent(children, i, j)
    {
      var node := i + 1;
      while node < |children|
        invariant i < node <= |children|
        invariant !(i < j < node)
        invariant forall k | i < k < node :: !Blocks(children[k])
      {
        if node == j {
          return true;
        }
        if Blocks(children[node]) {
          return false;
        }
        node := node + 1;
      }
      return false;
    }

    /** The loop body: fold the text element at `curr` into the one at `prev` and drop it,
        when the two are adjacent. */
    method ConsolidatePair(prev: nat, curr: nat)
      requires prev < curr < |children| && children[prev].Text? && children[curr].Text?
      modifies this
      ensures children == PairConsolidated(old(children), prev, curr)
    {
      var adjacent := IsAdjacent(prev, curr);
      if adjacent {
        children := children[prev := MergedText(children[prev], children[curr])];
        children := children[..curr] + children[curr + 1..];
      }
    }

    /** `_consolidate_text_elements`. */
    method ConsolidateTextElements(tag: TextTag)
      modifies this
      ensures children == Consolidated(old(children), tag)
    {
      ghost var cs := children;
      var ts := Positions(children, tag, 0);
      ConsolidateStart(cs, tag, ts);
      if |ts| == 0 {
        return;
      }
      var i := |ts| - 1;
      while 0 < i
        invariant 0 <= i < |ts| && ts[i] < |cs|
        invariant children == Progress(cs, tag, ts, i)
      {
        ConsolidateNext(cs, tag, ts, i);
        ConsolidatePair(ts[i - 1], ts[i]);
        i := i - 1;
      }
      ConsolidateEnd(cs, tag, ts);
    }

    /** `_consolidate_text`. */
    method ConsolidateText()
      modifies this
      ensures children == ConsolidatedRun(old(children))
    {
      ConsolidateTextElements(T);
      ConsolidateTextElements(DelText);
    }
  }
}
