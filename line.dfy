/** The output record of the differ (src/line.rs): a change marker, a
    nesting depth and a text, its rendering, and the wrapping of a nested
    diff into a bracketed, indented block. */
module Lines {

  /** Markers: '+' added, '-' removed, '~' changed, '.' structural
      (brackets), 'x' the internal "unchanged" sentinel. */
  datatype Line = Line(marker: char, depth: nat, text: string)

  /** The markers a caller may ever see. */
  predicate VisibleMarkers(ls: seq<Line>) {
    forall i :: 0 <= i < |ls| ==> ls[i].marker in "+-~."
  }

  /** Line::new: a fresh line sits at depth 0. */
  function NewLine(marker: char, text: string): (l: Line)
    ensures l.depth == 0 && l.marker == marker && l.text == text
  {
    Line(marker, 0, text)
  }

  // ---------------------------------------------------------------------
  // Rendering (Display::fmt)
  // ---------------------------------------------------------------------

  function Spaces(n: nat): (s: string)
    ensures |s| == n
    ensures forall i :: 0 <= i < n ==> s[i] == ' '
  {
    if n == 0 then "" else Spaces(n - 1) + " "
  }

  function MarkerPrefix(marker: char): string {
    if marker == '.' then "" else [marker, ' ']
  }

  /** Two spaces per level, then the marker and a space unless the line is
      structural, then the text. */
  function Render(l: Line): (r: string)
    ensures |r| == 2 * l.depth + |l.text| + if l.marker == '.' then 0 else 2
  {
    Spaces(l.depth * 2) + MarkerPrefix(l.marker) + l.text
  }

  lemma RenderLayout(l: Line)
    ensures var r := Render(l); var d := 2 * l.depth;
      && (forall i :: 0 <= i < d ==> r[i] == ' ')
      && (l.marker == '.' ==> |r| == d + |l.text| && r[d..] == l.text)
      && (l.marker != '.' ==>
            |r| == d + 2 + |l.text| && r[d] == l.marker && r[d + 1] == ' ' && r[d + 2..] == l.text)
  {
    var r := Render(l);
    var d := 2 * l.depth;
    assert r == Spaces(d) + MarkerPrefix(l.marker) + l.text;
    assert r[d..] == MarkerPrefix(l.marker) + l.text;
  }

  // ---------------------------------------------------------------------
  // Wrapping
  // ---------------------------------------------------------------------

  /** The source's `WrapperKind`: braces for objects, brackets for arrays. */
  datatype WrapperKind = ObjectKind | ArrayKind

  function OpenBracket(kind: WrapperKind): string {
    match kind
    case ObjectKind => "{"
    case ArrayKind => "["
  }

  function CloseBracket(kind: WrapperKind): string {
    match kind
    case ObjectKind => "}"
    case ArrayKind => "]"
  }

  /** Every line one level deeper, nothing else changed. */
  function Indented(ls: seq<Line>): (r: seq<Line>)
    ensures |r| == |ls|
    ensures forall i :: 0 <= i < |ls| ==> r[i] == ls[i].(depth := ls[i].depth + 1)
  {
    seq(|ls|, i requires 0 <= i < |ls| => ls[i].(depth := ls[i].depth + 1))
  }

  /** What `wrap` returns: nothing for an empty block; otherwise an opening
      structural line `name + open`, the lines one level deeper, and a
      closing structural line. */
  function Wrapped(ls: seq<Line>, name: string, kind: WrapperKind): (r: seq<Line>)
    ensures |r| == if ls == [] then 0 else |ls| + 2
  {
    if ls == [] then []
    else [NewLine('.', name + OpenBracket(kind))] + Indented(ls) + [NewLine('.', CloseBracket(kind))]
  }

  /** The shape of a wrapped block, line by line. */
  lemma WrappedShape(ls: seq<Line>, name: string, kind: WrapperKind)
    ensures var r := Wrapped(ls, name, kind);
      && (ls == [] <==> r == [])
      && (ls != [] ==>
            && |r| == |ls| + 2
            && r[0] == Line('.', 0, name + OpenBracket(kind))
            && r[|r| - 1] == Line('.', 0, CloseBracket(kind))
            && forall i :: 0 <= i < |ls| ==>
                 r[i + 1].marker == ls[i].marker && r[i + 1].text == ls[i].text &&
                 r[i + 1].depth == ls[i].depth + 1)
  {
    if ls != [] {
      var r := Wrapped(ls, name, kind);
      var open, ind, close := NewLine('.', name + OpenBracket(kind)), Indented(ls), NewLine('.', CloseBracket(kind));
      var head := [open] + ind;
      assert r == head + [close];
      assert |r| == |ls| + 2;
      assert r[0] == head[0] == open;
      assert r[|r| - 1] == close;
      forall i | 0 <= i < |ls| ensures r[i + 1] == ind[i] {
        assert r[i + 1] == head[i + 1];
      }
    }
  }

  /** Wrapping never introduces a marker other than '.'. */
  lemma WrappedMarkers(ls: seq<Line>, name: string, kind: WrapperKind)
    requires VisibleMarkers(ls)
    ensures VisibleMarkers(Wrapped(ls, name, kind))
  {
    var r := Wrapped(ls, name, kind);
    if ls != [] {
      forall i | 0 <= i < |r| ensures r[i].marker in "+-~." {
        if 0 < i < |r| - 1 {
          assert r[i] == Indented(ls)[i - 1];
        }
      }
    }
  }

  /** Every line sits at a depth below `h`. */
  predicate DepthBelow(ls: seq<Line>, h: nat) {
    forall i :: 0 <= i < |ls| ==> ls[i].depth < h
  }

  /** Wrapping adds exactly one level: the brackets sit at depth 0 and the
      block one deeper. */
  lemma WrappedDepth(ls: seq<Line>, name: string, kind: WrapperKind, h: nat)
    requires DepthBelow(ls, h)
    ensures DepthBelow(Wrapped(ls, name, kind), h + 1)
  {
    var r := Wrapped(ls, name, kind);
    if ls != [] {
      forall i | 0 <= i < |r| ensures r[i].depth < h + 1 {
        if 0 < i < |r| - 1 {
          assert r[i] == Indented(ls)[i - 1];
        }
      }
    }
  }

  /** `wrap` as the source writes it: push the opening line, then each line
      with its depth incremented, then the closing line. */
  method Wrap(lines: seq<Line>, name: string, kind: WrapperKind) returns (result: seq<Line>)
    ensures result == Wrapped(lines, name, kind)
  {
    result := [];
    if lines != [] {
      result := result + [NewLine('.', name + OpenBracket(kind))];
      for i := 0 to |lines|
        invariant result == [NewLine('.', name + OpenBracket(kind))] + Indented(lines[..i])
      {
        var line := lines[i];
        line := line.(depth := line.depth + 1);
        result := result + [line];
      }
      assert lines[..|lines|] == lines;
      result := result + [NewLine('.', CloseBracket(kind))];
    }
  }
}
