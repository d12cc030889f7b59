/** XLPagerTabStrip's tab widths: cells too wide for an equal share keep their width, and the others
    share what is left. */
module CellWidths {

  function Total(widths: seq<real>): real {
    if widths == [] then 0.0 else widths[0] + Total(widths[1..])
  }

  /** How many cells are wider than w. */
  function CountLarge(widths: seq<real>, w: real): (n: nat)
    ensures n <= |widths|
  {
    if widths == [] then 0 else (if widths[0] > w then 1 else 0) + CountLarge(widths[1..], w)
  }

  /** The width those take together. */
  function TotalLarge(widths: seq<real>, w: real): real {
    if widths == [] then 0.0 else (if widths[0] > w then widths[0] else 0.0) + TotalLarge(widths[1..], w)
  }

  function Stretched(widths: seq<real>, w: real): (r: seq<real>)
    ensures |r| == |widths|
    ensures forall i :: 0 <= i < |r| ==> r[i] == if widths[i] > w then widths[i] else w
  {
    seq(|widths|, i requires 0 <= i < |widths| => if widths[i] > w then widths[i] else w)
  }

  /** n cells of width w. */
  function Share(w: real, n: int): real {
    w * n as real
  }

  lemma ShareAdd(w: real, m: int, n: int)
    ensures Share(w, m + n) == Share(w, m) + Share(w, n) && Share(w, 0) == 0.0 && Share(w, 1) == w
  {
    assert (m + n) as real == m as real + n as real;
  }

  // ----- Accumulating -----

  lemma {:induction false} OneMore(widths: seq<real>, w: real, i: nat)
    requires i < |widths|
    ensures CountLarge(widths[..i + 1], w) == CountLarge(widths[..i], w) + if widths[i] > w then 1 else 0
    ensures TotalLarge(widths[..i + 1], w) == TotalLarge(widths[..i], w) + if widths[i] > w then widths[i] else 0.0
    ensures Total(widths[..i + 1]) == Total(widths[..i]) + widths[i]
  {
    if i == 0 {
      assert widths[..1][1..] == [] && widths[..0] == [];
    } else {
      OneMore(widths[1..], w, i - 1);
      assert widths[..i + 1][1..] == widths[1..][..i] && widths[..i][1..] == widths[1..][..i - 1];
    }
  }

  // ----- Narrowing the suggestion -----

  /** Lowering the suggestion turns small cells into large ones, each wider than the new suggestion. */
  lemma {:induction false} Narrower(widths: seq<real>, v: real, w: real)
    requires w <= v
    ensures CountLarge(widths, v) <= CountLarge(widths, w)
    ensures CountLarge(widths, v) == CountLarge(widths, w) ==> TotalLarge(widths, v) == TotalLarge(widths, w)
    ensures CountLarge(widths, v) < CountLarge(widths, w) ==>
              TotalLarge(widths, w) - TotalLarge(widths, v) > Share(w, CountLarge(widths, w) - CountLarge(widths, v))
  {
    hide Share;
    if widths != [] {
      var rest := widths[1..];
      Narrower(rest, v, w);
      ShareAdd(w, CountLarge(rest, w) - CountLarge(rest, v), 1);
    }
  }

  lemma {:induction false} AllLarge(widths: seq<real>, w: real)
    requires CountLarge(widths, w) == |widths|
    ensures TotalLarge(widths, w) == Total(widths)
  {
    if widths != [] {
      AllLarge(widths[1..], w);
    }
  }

  /** Widths stretched to w: the large cells keep theirs, the small ones all get w. */
  lemma {:induction false} StretchedTotal(widths: seq<real>, w: real)
    ensures Total(Stretched(widths, w)) == TotalLarge(widths, w) + Share(w, |widths| - CountLarge(widths, w))
  {
    hide Share;
    ShareAdd(w, 0, 0);
    if widths != [] {
      ShareAdd(w, |widths[1..]| - CountLarge(widths[1..], w), 1);
      StretchedTotal(widths[1..], w);
      assert Stretched(widths, w)[1..] == Stretched(widths[1..], w);
    }
  }

  /** w is what the small cells get if the large ones are those wider than v. */
  ghost predicate Shares(widths: seq<real>, net: real, v: real, w: real) {
    && w <= v && CountLarge(widths, v) < |widths|
    && TotalLarge(widths, v) + Share(w, |widths| - CountLarge(widths, v)) == net
  }

  /** When the minimum widths fit, some cell is always small: the recursion never divides by zero. */
  lemma SomeCellIsSmall(widths: seq<real>, net: real, v: real, w: real)
    requires Shares(widths, net, v, w) && Total(widths) <= net
    ensures CountLarge(widths, w) < |widths|
  {
    Narrower(widths, v, w);
    if CountLarge(widths, w) == |widths| {
      AllLarge(widths, w);
    }
  }

  /** Each new suggestion is smaller than the last, and again shares out exactly what there is. */
  lemma NextSuggestion(widths: seq<real>, net: real, v: real, w: real) returns (next: real)
    requires Shares(widths, net, v, w) && Total(widths) <= net && CountLarge(widths, w) > CountLarge(widths, v)
    ensures CountLarge(widths, w) < |widths|
    ensures next == (net - TotalLarge(widths, w)) / (|widths| - CountLarge(widths, w)) as real
    ensures next < w && Shares(widths, net, w, next)
  {
    hide CountLarge, TotalLarge, Total;
    SomeCellIsSmall(widths, net, v, w);
    Narrower(widths, v, w);
    var small, grown := |widths| - CountLarge(widths, w), CountLarge(widths, w) - CountLarge(widths, v);
    next := (net - TotalLarge(widths, w)) / small as real;
    assert Share(next, small) == net - TotalLarge(widths, w);
    ShareAdd(w, small, grown);
    assert small + grown == |widths| - CountLarge(widths, v);
    Cancel(next, w, small);
  }

  lemma Cancel(a: real, b: real, n: int)
    requires n > 0 && Share(a, n) < Share(b, n)
    ensures a < b
  {
    assert Share(b, n) - Share(a, n) == (b - a) * n as real;
    if a >= b {
      NotPositive(b - a, n as real);
    }
  }

  lemma NotPositive(x: real, c: real)
    requires x <= 0.0 && c > 0.0
    ensures x * c <= 0.0
  {
  }

  // ----- The source's two functions -----

  /** The recursion. `net` is the available width less the spacing, and v, the suggestion before this
      one, says which cells were counted as large then. */
  method CalculateStretchedCellWidths(minimumCellWidths: seq<real>, net: real, suggested: real,
                                      previousNumberOfLargeCells: nat, ghost v: real) returns (w: real)
    requires Total(minimumCellWidths) <= net
    requires Shares(minimumCellWidths, net, v, suggested)
    requires previousNumberOfLargeCells == CountLarge(minimumCellWidths, v)
    ensures w <= suggested && CountLarge(minimumCellWidths, w) < |minimumCellWidths|
    ensures Total(Stretched(minimumCellWidths, w)) == net
    decreases |minimumCellWidths| - previousNumberOfLargeCells
  {
    hide Total, CountLarge, TotalLarge, Share, Stretched;
    var numberOfLargeCells := 0;
    var totalWidthOfLargeCells := 0.0;
    NothingYet(minimumCellWidths, suggested);
    for i := 0 to |minimumCellWidths|
      invariant numberOfLargeCells == CountLarge(minimumCellWidths[..i], suggested)
      invariant totalWidthOfLargeCells == TotalLarge(minimumCellWidths[..i], suggested)
    {
      OneMore(minimumCellWidths, suggested, i);
      if minimumCellWidths[i] > suggested {
        totalWidthOfLargeCells := totalWidthOfLargeCells + minimumCellWidths[i];
        numberOfLargeCells := numberOfLargeCells + 1;
      }
    }
    assert minimumCellWidths[..|minimumCellWidths|] == minimumCellWidths;
    if numberOfLargeCells <= previousNumberOfLargeCells {
      Narrower(minimumCellWidths, v, suggested);
      StretchedTotal(minimumCellWidths, suggested);
      return suggested;
    }
    var next := NextSuggestion(minimumCellWidths, net, v, suggested);
    var numberOfSmallCells := |minimumCellWidths| - numberOfLargeCells;
    var newSuggestion := (net - totalWidthOfLargeCells) / numberOfSmallCells as real;
    w := CalculateStretchedCellWidths(minimumCellWidths, net, newSuggestion, numberOfLargeCells, suggested);
  }

  lemma NothingYet(widths: seq<real>, w: real)
    ensures CountLarge(widths[..0], w) == 0 && TotalLarge(widths[..0], w) == 0.0 && Total(widths[..0]) == 0.0
  {
  }

  lemma EqualShare(net: real, n: int)
    requires n > 0
    ensures Share(net / n as real, n) == net
  {
  }

  /** A width no cell exceeds. */
  lemma {:induction false} Widest(widths: seq<real>, least: real) returns (v: real)
    ensures v >= least && CountLarge(widths, v) == 0 && TotalLarge(widths, v) == 0.0
    ensures forall i :: 0 <= i < |widths| ==> widths[i] <= v
  {
    if widths == [] {
      v := least;
    } else {
      var rest := Widest(widths[1..], least);
      v := if widths[0] > rest then widths[0] else rest;
      NoneExceeds(widths[1..], v);
    }
  }

  lemma {:induction false} NoneExceeds(widths: seq<real>, v: real)
    requires forall i :: 0 <= i < |widths| ==> widths[i] <= v
    ensures CountLarge(widths, v) == 0 && TotalLarge(widths, v) == 0.0
  {
    if widths != [] {
      assert widths[0] <= v;
      NoneExceeds(widths[1..], v);
    }
  }

  /** The widths of the tab bar's cells. When they are stretched, every cell gets at least its minimum
      and the cells and the spacing between them fill the available width exactly. With no cells at
      all the source's floating-point division by zero goes unused. */
  method CalculateWidths(minimumCellWidths: seq<real>, spacing: real, available: real, shouldFill: bool)
    returns (widths: seq<real>)
    ensures |widths| == |minimumCellWidths|
    ensures forall i :: 0 <= i < |widths| ==> widths[i] >= minimumCellWidths[i]
    ensures var spacingTotal := (|minimumCellWidths| - 1) as real * spacing;
            if shouldFill && Total(minimumCellWidths) + spacingTotal <= available && |minimumCellWidths| > 0
            then Total(widths) + spacingTotal == available &&
                 exists w :: widths == Stretched(minimumCellWidths, w) &&
                               CountLarge(minimumCellWidths, w) < |minimumCellWidths|
            else widths == minimumCellWidths
  {
    hide Total, CountLarge, TotalLarge, Stretched, Share;
    var numberOfCells := |minimumCellWidths|;
    var contentWidth := 0.0;
    NothingYet(minimumCellWidths, 0.0);
    for i := 0 to numberOfCells
      invariant contentWidth == Total(minimumCellWidths[..i])
    {
      OneMore(minimumCellWidths, 0.0, i);
      contentWidth := contentWidth + minimumCellWidths[i];
    }
    assert minimumCellWidths[..numberOfCells] == minimumCellWidths;
    var spacingTotal := (numberOfCells - 1) as real * spacing;
    contentWidth := contentWidth + spacingTotal;
    if !shouldFill || available < contentWidth || numberOfCells == 0 {
      return minimumCellWidths;
    }
    var equal := (available - spacingTotal) / numberOfCells as real;
    ghost var v := Widest(minimumCellWidths, equal);
    EqualShare(available - spacingTotal, numberOfCells);
    var general := CalculateStretchedCellWidths(minimumCellWidths, available - spacingTotal, equal, 0, v);
    widths := [];
    for i := 0 to numberOfCells
      invariant widths == Stretched(minimumCellWidths, general)[..i]
    {
      widths := widths + [if minimumCellWidths[i] > general then minimumCellWidths[i] else general];
    }
    assert widths == Stretched(minimumCellWidths, general);
  }
}
