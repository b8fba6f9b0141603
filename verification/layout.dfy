/**
 * Screen layout: the framed title box (PrintTitle with printBorder and
 * printCenteredText) and the breadcrumb trail (PrintBreadcrumbs). Printing
 * is replaced by returning the lines that would be printed. Strings are byte
 * sequences, so `|s|` is Go's `len(s)`.
 */
module Layout {

  /** Width of the text area inside the title frame. */
  const Width: int := 38

  /** The top and bottom line of the title frame: 42 `=` characters. */
  const Border: string := "=========================================="

  /** Printed before the first link of every breadcrumb trail. */
  const Root: string := "Main Menu > "

  /** Printed between two breadcrumb links. */
  const Separator: string := " > "

  // ---------------------------------------------------------------------------
  // Centering

  /** `n` blanks; a loop `for i := 0; i < n; i++` prints none when n <= 0. */
  function Spaces(n: int): (s: string)
    ensures |s| == (if n > 0 then n else 0)
    ensures forall k :: 0 <= k < |s| ==> s[k] == ' '
  {
    if n > 0 then seq(n, _ => ' ') else ""
  }

  /** Go's integer division, which truncates toward zero. */
  function GoDiv(a: int, b: int): (q: int)
    requires b > 0
    ensures a >= 0 ==> 0 <= q && q * b <= a < q * b + b
    ensures a < 0 ==> q <= 0 && a <= q * b < a + b
  {
    if a >= 0 then a / b else -((-a) / b)
  }

  /**
   * The left and right padding of printCenteredText: half of the free room
   * on each side, the right one getting the extra blank when the text has
   * odd length. For an even width that the text fits in, the two paddings
   * and the text fill the width exactly and differ by at most one.
   */
  function Padding(textLen: nat, width: int): (pad: (int, int))
    ensures textLen <= width && width % 2 == 0 ==>
              && 0 <= pad.0 <= pad.1 <= pad.0 + 1
              && pad.0 + textLen + pad.1 == width
  {
    var half := GoDiv(width - textLen, 2);
    (half, if textLen % 2 != 0 then half + 1 else half)
  }

  /**
   * One framed line: "= ", the left padding, the text, the right padding, " =".
   * When the text fits in an even width the line is four longer than the
   * width, and the text sits right after the left padding.
   */
  function CenteredLine(text: string, width: int): (line: string)
    ensures |text| <= width && width % 2 == 0 ==>
              && |line| == width + 4
              && line[..2] == "= " && line[width + 2..] == " ="
              && line[2 + Padding(|text|, width).0..2 + Padding(|text|, width).0 + |text|] == text
    ensures |text| <= width && width % 2 == 0 ==>
              forall k :: 2 <= k < 2 + Padding(|text|, width).0 ==> line[k] == ' '
    ensures |text| <= width && width % 2 == 0 ==>
              forall k :: 2 + Padding(|text|, width).0 + |text| <= k < width + 2 ==> line[k] == ' '
  {
    var pad := Padding(|text|, width);
    "= " + Spaces(pad.0) + text + Spaces(pad.1) + " ="
  }

  /** A framed line of text that fits in Width is exactly as long as the border. */
  lemma FramedLineFits(text: string)
    requires |text| <= Width
    ensures |CenteredLine(text, Width)| == |Border| == 42
  {
  }

  // ---------------------------------------------------------------------------
  // Title wrapping

  /**
   * One line of a wrapped title. `softBreak` says that the line ended at a
   * space which was dropped; a hard break (or the last line) dropped nothing.
   */
  datatype Piece = Piece(text: string, softBreak: bool)

  /** Puts the pieces back together, re-inserting the space dropped at each soft break. */
  function Join(ps: seq<Piece>): string
  {
    if ps == [] then "" else ps[0].text + (if ps[0].softBreak then " " else "") + Join(ps[1..])
  }

  /** No byte of t[lo..hi] is a space. */
  predicate NoSpace(t: string, lo: int, hi: int)
    requires 0 <= lo <= hi <= |t|
  {
    forall j :: lo <= j < hi ==> t[j] != ' '
  }

  /**
   * The position of the last space in t[lo..hi], or lo - 1 when there is
   * none: what PrintTitle's `lastSpace` tracks while it scans a line.
   */
  function LastSpace(t: string, lo: int, hi: int): (k: int)
    requires 0 <= lo <= hi <= |t|
    ensures lo - 1 <= k < hi
    ensures k >= lo ==> t[k] == ' '
    decreases hi - lo
  {
    if hi == lo then lo - 1
    else if t[hi - 1] == ' ' then hi - 1
    else LastSpace(t, lo, hi - 1)
  }

  /** The space LastSpace finds is the last one: no byte after it, up to hi, is a space. */
  lemma {:induction false} LastSpaceIsLast(t: string, lo: int, hi: int)
    requires 0 <= lo <= hi <= |t|
    ensures NoSpace(t, LastSpace(t, lo, hi) + 1, hi)
    decreases hi - lo
  {
    if hi > lo && t[hi - 1] != ' ' {
      LastSpaceIsLast(t, lo, hi - 1);
    }
  }

  /**
   * Greedy wrapping of t[start..], stated recursively: a rest that fits is
   * the last line; otherwise the line ends at the last space of the next
   * Width bytes that lies after the line's first byte (dropping that space),
   * or, when there is no such space, is cut after exactly Width bytes.
   */
  function WrapFrom(t: string, start: nat): seq<Piece>
    requires start <= |t|
    decreases |t| - start
  {
    if |t| - start <= Width then
      (if start < |t| then [Piece(t[start..], false)] else [])
    else
      var k := LastSpace(t, start, start + Width);
      if k > start then [Piece(t[start..k], true)] + WrapFrom(t, k + 1)
      else [Piece(t[start..start + Width], false)] + WrapFrom(t, start + Width)
  }

  /** The lines of a title: a title that fits is one line, even when empty. */
  function Wrap(t: string): (ps: seq<Piece>)
    ensures ps != [] && ps[0].text <= t
  {
    if |t| <= Width then [Piece(t, false)] else WrapFrom(t, 0)
  }

  /** WrapFrom on a rest longer than Width, when the next Width bytes hold a usable space. */
  lemma SoftStep(t: string, start: nat, k: int)
    requires start + Width < |t| && k == LastSpace(t, start, start + Width) && k > start
    ensures WrapFrom(t, start) == [Piece(t[start..k], true)] + WrapFrom(t, k + 1)
  {
  }

  /** WrapFrom on a rest longer than Width, when the next Width bytes hold no usable space. */
  lemma HardStep(t: string, start: nat)
    requires start + Width < |t| && LastSpace(t, start, start + Width) <= start
    ensures WrapFrom(t, start) == [Piece(t[start..start + Width], false)] + WrapFrom(t, start + Width)
  {
  }

  /**
   * The first line of a rest longer than Width is chosen greedily: a soft
   * break drops the last space among the next Width bytes, and a hard break
   * cuts exactly Width bytes and happens only when none of those bytes after
   * the first is a space.
   */
  lemma WrapFromGreedy(t: string, start: nat)
    requires start + Width < |t|
    ensures WrapFrom(t, start) != []
    ensures WrapFrom(t, start)[0].softBreak ==>
              var n := |WrapFrom(t, start)[0].text|;
              start + n < start + Width && t[start + n] == ' ' && NoSpace(t, start + n + 1, start + Width)
    ensures !WrapFrom(t, start)[0].softBreak ==>
              |WrapFrom(t, start)[0].text| == Width && NoSpace(t, start + 1, start + Width)
  {
    var k := LastSpace(t, start, start + Width);
    if k > start {
      SoftStep(t, start, k);
    } else {
      HardStep(t, start);
    }
    LastSpaceIsLast(t, start, start + Width);
  }

  /** A rest that fits in Width is at most one line. */
  lemma LastLine(t: string, start: nat)
    requires start <= |t| && |t| - start <= Width
    ensures WrapFrom(t, start) == if start < |t| then [Piece(t[start..], false)] else []
  {
  }

  /** Joining a piece in front of others. */
  lemma JoinCons(p: Piece, rest: seq<Piece>)
    ensures Join([p] + rest) == p.text + (if p.softBreak then " " else "") + Join(rest)
  {
    assert ([p] + rest)[1..] == rest;
  }

  /** A line cut at the space t[k], followed by lines that join to what comes after that space, joins to t[start..]. */
  lemma JoinSoftBreak(t: string, start: nat, k: nat, rest: seq<Piece>)
    requires start < k < |t| && t[k] == ' ' && Join(rest) == t[k + 1..]
    ensures Join([Piece(t[start..k], true)] + rest) == t[start..]
  {
    JoinCons(Piece(t[start..k], true), rest);
    assert t[start..] == t[start..k] + [t[k]] + t[k + 1..];
  }

  /** A line cut at position m, followed by lines that join to t[m..], joins to t[start..]. */
  lemma JoinHardBreak(t: string, start: nat, m: nat, rest: seq<Piece>)
    requires start <= m <= |t| && Join(rest) == t[m..]
    ensures Join([Piece(t[start..m], false)] + rest) == t[start..]
  {
    JoinCons(Piece(t[start..m], false), rest);
    assert t[start..] == t[start..m] + t[m..];
  }

  /** Wrapping loses nothing: joining the lines of t[start..] gives t[start..] back. */
  lemma {:induction false} JoinWrapFrom(t: string, start: nat)
    requires start <= |t|
    ensures Join(WrapFrom(t, start)) == t[start..]
    decreases |t| - start, 1
  {
    if |t| - start > Width {
      var k := LastSpace(t, start, start + Width);
      if k > start {
        JoinSoftCase(t, start, k);
      } else {
        JoinHardCase(t, start);
      }
    } else {
      LastLine(t, start);
      if start < |t| {
        JoinHardBreak(t, start, |t|, []);
      }
    }
  }

  /** JoinWrapFrom when the first line ends at a space. */
  lemma {:induction false} JoinSoftCase(t: string, start: nat, k: int)
    requires start + Width < |t| && k == LastSpace(t, start, start + Width) && k > start
    ensures Join(WrapFrom(t, start)) == t[start..]
    decreases |t| - start, 0
  {
    SoftStep(t, start, k);
    JoinWrapFrom(t, k + 1);
    JoinSoftBreak(t, start, k, WrapFrom(t, k + 1));
  }

  /** JoinWrapFrom when the first line is cut after Width bytes. */
  lemma {:induction false} JoinHardCase(t: string, start: nat)
    requires start + Width < |t| && LastSpace(t, start, start + Width) <= start
    ensures Join(WrapFrom(t, start)) == t[start..]
    decreases |t| - start, 0
  {
    HardStep(t, start);
    JoinWrapFrom(t, start + Width);
    JoinHardBreak(t, start, start + Width, WrapFrom(t, start + Width));
  }

  /**
   * The shape of a wrapped title: every line is non-empty and at most Width
   * bytes, a line cut at a space is shorter than Width, and a hard cut
   * before the last line is exactly Width bytes.
   */
  predicate WellWrapped(ps: seq<Piece>)
  {
    && (forall i :: 0 <= i < |ps| ==> 0 < |ps[i].text| <= Width)
    && (forall i :: 0 <= i < |ps| && ps[i].softBreak ==> |ps[i].text| < Width)
    && (forall i :: 0 <= i < |ps| - 1 && !ps[i].softBreak ==> |ps[i].text| == Width)
  }

  /** A well-shaped line in front of well-wrapped lines. */
  lemma WellWrappedCons(p: Piece, rest: seq<Piece>)
    requires 0 < |p.text| <= Width && (p.softBreak ==> |p.text| < Width)
    requires !p.softBreak ==> |p.text| == Width
    requires WellWrapped(rest)
    ensures WellWrapped([p] + rest)
  {
    var ps := [p] + rest;
    assert forall i :: 1 <= i < |ps| ==> ps[i] == rest[i - 1];
  }

  /** Every line WrapFrom produces is well shaped. */
  lemma {:induction false} WrapFromBounds(t: string, start: nat)
    requires start <= |t|
    ensures WellWrapped(WrapFrom(t, start))
    decreases |t| - start, 1
  {
    if |t| - start > Width {
      var k := LastSpace(t, start, start + Width);
      if k > start {
        BoundsSoftCase(t, start, k);
      } else {
        BoundsHardCase(t, start);
      }
    } else {
      LastLine(t, start);
    }
  }

  /** WrapFromBounds when the first line ends at a space. */
  lemma {:induction false} BoundsSoftCase(t: string, start: nat, k: int)
    requires start + Width < |t| && k == LastSpace(t, start, start + Width) && k > start
    ensures WellWrapped(WrapFrom(t, start))
    decreases |t| - start, 0
  {
    SoftStep(t, start, k);
    WrapFromBounds(t, k + 1);
    WellWrappedCons(Piece(t[start..k], true), WrapFrom(t, k + 1));
  }

  /** WrapFromBounds when the first line is cut after Width bytes. */
  lemma {:induction false} BoundsHardCase(t: string, start: nat)
    requires start + Width < |t| && LastSpace(t, start, start + Width) <= start
    ensures WellWrapped(WrapFrom(t, start))
    decreases |t| - start, 0
  {
    HardStep(t, start);
    WrapFromBounds(t, start + Width);
    WellWrappedCons(Piece(t[start..start + Width], false), WrapFrom(t, start + Width));
  }

  /** Round trip: the lines of any title, joined back, are the title. */
  lemma WrapRoundTrip(t: string)
    ensures Join(Wrap(t)) == t
  {
    if |t| > Width {
      JoinWrapFrom(t, 0);
    }
  }

  /**
   * A title that fits is one line equal to the title; a longer one becomes
   * lines that are all non-empty and at most Width bytes.
   */
  lemma WrapBounds(t: string)
    ensures |t| <= Width ==> Wrap(t) == [Piece(t, false)]
    ensures |t| > Width ==> WellWrapped(Wrap(t))
    ensures forall i :: 0 <= i < |Wrap(t)| ==> |Wrap(t)[i].text| <= Width
  {
    if |t| > Width {
      WrapFromBounds(t, 0);
    }
  }

  /** A break at a usable space emits the line WrapFrom starts with, up to that space. */
  lemma SoftBreakStep(t: string, done: seq<Piece>, start: nat, k: int, whole: seq<Piece>)
    requires start + Width < |t| && k == LastSpace(t, start, start + Width) && k > start
    requires done + WrapFrom(t, start) == whole
    ensures (done + [Piece(t[start..k], true)]) + WrapFrom(t, k + 1) == whole
  {
    SoftStep(t, start, k);
    assert (done + [Piece(t[start..k], true)]) + WrapFrom(t, k + 1)
        == done + ([Piece(t[start..k], true)] + WrapFrom(t, k + 1));
  }

  /** A break without a usable space emits the Width bytes WrapFrom starts with. */
  lemma HardBreakStep(t: string, done: seq<Piece>, start: nat, end: nat, whole: seq<Piece>)
    requires end == start + Width < |t| && LastSpace(t, start, end) <= start
    requires done + WrapFrom(t, start) == whole
    ensures (done + [Piece(t[start..end], false)]) + WrapFrom(t, end) == whole
  {
    HardStep(t, start);
    assert (done + [Piece(t[start..end], false)]) + WrapFrom(t, end)
        == done + ([Piece(t[start..end], false)] + WrapFrom(t, end));
  }


  /** Scanning one more byte: a space becomes the last space seen. */
  lemma ScanStep(t: string, lo: nat, hi: nat)
    requires lo <= hi < |t|
    ensures LastSpace(t, lo, hi + 1) == if t[hi] == ' ' then hi else LastSpace(t, lo, hi)
  {
  }

  /** Once the rest fits in Width, it is the last line (if any) of the wrapping. */
  lemma LastLineStep(t: string, done: seq<Piece>, start: nat, whole: seq<Piece>)
    requires start <= |t| && |t| - start <= Width
    requires done + WrapFrom(t, start) == whole
    ensures start < |t| ==> done + [Piece(t[start..], false)] == whole
    ensures start == |t| ==> done == whole
  {
    LastLine(t, start);
  }

  /**
   * The line-splitting loop of PrintTitle. It scans with `currentPos`,
   * remembers the last space seen in `lastSpace`, and once a line holds
   * Width bytes emits it up to that space (and rescans from just after it)
   * or, without a usable space, emits the Width bytes.
   */
  method SplitTitle(title: string) returns (pieces: seq<Piece>)
    ensures pieces == Wrap(title)
  {
    if |title| <= Width {
      return [Piece(title, false)];
    }
    var start, currentPos, lastSpace := 0, 0, -1;
    pieces := [];
    ghost var whole := WrapFrom(title, 0);
    while currentPos < |title|
      invariant 0 <= start <= currentPos <= |title|
      invariant currentPos - start <= Width
      invariant -1 <= lastSpace < currentPos
      invariant lastSpace >= start ==> lastSpace == LastSpace(title, start, currentPos)
      invariant lastSpace < start ==> LastSpace(title, start, currentPos) == start - 1
      invariant pieces + WrapFrom(title, start) == whole
      decreases |title| - start, |title| - currentPos
    {
      if currentPos - start >= Width {
        if lastSpace > start {
          SoftBreakStep(title, pieces, start, lastSpace, whole);
          pieces := pieces + [Piece(title[start..lastSpace], true)];
          start := lastSpace + 1;
          currentPos := start;
          lastSpace := -1;
        } else {
          HardBreakStep(title, pieces, start, currentPos, whole);
          pieces := pieces + [Piece(title[start..currentPos], false)];
          start := currentPos;
        }
      } else if title[currentPos] == ' ' {
        ScanStep(title, start, currentPos);
        lastSpace := currentPos;
        currentPos := currentPos + 1;
      } else {
        ScanStep(title, start, currentPos);
        currentPos := currentPos + 1;
      }
    }
    LastLineStep(title, pieces, start, whole);
    if start < |title| {
      pieces := pieces + [Piece(title[start..], false)];
    }
  }

  /** The printed box around some lines: a border, each line centered in the frame, a border. */
  function Box(ps: seq<Piece>): seq<string>
  {
    [Border] + seq(|ps|, i requires 0 <= i < |ps| => CenteredLine(ps[i].text, Width)) + [Border]
  }

  /** When every line fits in Width, every line of the box is exactly as long as the border. */
  lemma BoxWidth(ps: seq<Piece>)
    requires forall i :: 0 <= i < |ps| ==> |ps[i].text| <= Width
    ensures |Box(ps)| == |ps| + 2
    ensures forall i :: 0 <= i < |Box(ps)| ==> |Box(ps)[i]| == |Border|
  {
    var box := Box(ps);
    forall i | 0 <= i < |box|
      ensures |box[i]| == |Border|
    {
      if 0 < i < |box| - 1 {
        FramedLineFits(ps[i - 1].text);
      }
    }
  }

  /**
   * PrintTitle: the box around the wrapped title. Every line is as long as
   * the border.
   */
  method PrintTitle(title: string) returns (lines: seq<string>)
    ensures lines == Box(Wrap(title))
    ensures |lines| == |Wrap(title)| + 2
    ensures forall i :: 0 <= i < |lines| ==> |lines[i]| == |Border|
  {
    var pieces := SplitTitle(title);
    WrapBounds(title);
    BoxWidth(pieces);
    lines := Box(pieces);
  }

  // ---------------------------------------------------------------------------
  // Breadcrumbs

  /** The links separated by " > ", with no separator after the last one. */
  function Trail(links: seq<string>): string
  {
    if |links| == 0 then ""
    else if |links| == 1 then links[0]
    else Trail(links[..|links| - 1]) + Separator + links[|links| - 1]
  }

  /** Two non-empty trails placed one after the other are joined by exactly one separator. */
  lemma {:induction false} TrailConcat(a: seq<string>, b: seq<string>)
    requires a != [] && b != []
    ensures Trail(a + b) == Trail(a) + Separator + Trail(b)
    decreases |b|
  {
    var ab := a + b;
    assert ab[..|ab| - 1] == a + b[..|b| - 1];
    if |b| == 1 {
      assert ab[..|ab| - 1] == a;
    } else {
      TrailConcat(a, b[..|b| - 1]);
    }
  }

  /** Extending a trail by the next link. */
  lemma TrailSnoc(links: seq<string>, i: nat)
    requires i < |links|
    ensures Trail(links[..i + 1]) == if i == 0 then links[0] else Trail(links[..i]) + Separator + links[i]
  {
    assert links[..i + 1][..i] == links[..i];
  }

  /** A trail ends with its last link: no separator follows it. */
  lemma TrailEndsWithLast(links: seq<string>)
    requires links != []
    ensures |Trail(links)| >= |links[|links| - 1]|
    ensures Trail(links)[|Trail(links)| - |links[|links| - 1]|..] == links[|links| - 1]
  {
    if |links| > 1 {
      var front := Trail(links[..|links| - 1]) + Separator;
      assert Trail(links) == front + links[|links| - 1];
    }
  }

  /**
   * PrintBreadcrumbs: "Main Menu > " followed by the first n links joined
   * by " > " (nothing after the root when n <= 0). Links past n are ignored;
   * n beyond the array is an index panic in Go, so it is required away.
   */
  method PrintBreadcrumbs(links: seq<string>, n: int) returns (line: string)
    requires n <= |links|
    ensures line == Root + Trail(links[..if n > 0 then n else 0])
    ensures n > 0 ==> |line| >= |links[n - 1]| && line[|line| - |links[n - 1]|..] == links[n - 1]
  {
    line := Root;
    var i := 0;
    while i < n
      invariant 0 <= i <= (if n > 0 then n else 0)
      invariant line == Root + (if i == 0 then "" else if i == n then Trail(links[..i]) else Trail(links[..i]) + Separator)
    {
      TrailSnoc(links, i);
      if i == n - 1 {
        line := line + links[i];
      } else {
        line := line + links[i] + Separator;
      }
      i := i + 1;
    }
    if n > 0 {
      TrailEndsWithLast(links[..n]);
    }
  }
}
