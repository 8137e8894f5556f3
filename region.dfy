/** The background region of an image, defined independently of any fill order:
    the pixels joined to a dark border pixel by a path of up/down/left/right
    steps through dark, non-transparent pixels. */
module Region {
  import opened Luminance

  /** (x, y): column x, row y, as the image library indexes pixels. */
  type Coord = (int, int)

  /** A rectangular grid, indexed g[x][y], at least one pixel wide and high. */
  predicate IsImage(g: seq<seq<Pixel>>)
  {
    |g| >= 1 && |g[0]| >= 1 && forall x :: 0 <= x < |g| ==> |g[x]| == |g[0]|
  }

  type Image = g: seq<seq<Pixel>> | IsImage(g) witness [[Pixel(0, 0, 0, 0)]]

  function Width(g: Image): nat { |g| }

  function Height(g: Image): nat { |g[0]| }

  predicate InBounds(g: Image, c: Coord)
  {
    0 <= c.0 < Width(g) && 0 <= c.1 < Height(g)
  }

  function At(g: Image, c: Coord): Pixel
    requires InBounds(g, c)
  {
    g[c.0][c.1]
  }

  /** The test the fill applies to a pixel: in bounds, alpha > 0 and dark. */
  predicate Fillable(g: Image, c: Coord)
  {
    InBounds(g, c) && At(g, c).a > 0 && IsDark(At(g, c))
  }

  predicate OnBorder(g: Image, c: Coord)
  {
    InBounds(g, c) && (c.0 == 0 || c.0 == Width(g) - 1 || c.1 == 0 || c.1 == Height(g) - 1)
  }

  /** The border pixels the fill starts from. */
  function Seeds(g: Image): (s: set<Coord>)
    ensures forall c {:trigger c in s} :: c in s <==> OnBorder(g, c) && Fillable(g, c)
  {
    set x, y | 0 <= x < Width(g) && 0 <= y < Height(g) && OnBorder(g, (x, y)) && Fillable(g, (x, y)) :: (x, y)
  }

  /** 4-adjacency: one step left, right, up or down; never a diagonal. */
  predicate Adjacent(c: Coord, d: Coord)
  {
    (c.1 == d.1 && (d.0 == c.0 - 1 || d.0 == c.0 + 1)) ||
    (c.0 == d.0 && (d.1 == c.1 - 1 || d.1 == c.1 + 1))
  }

  /** The neighbour offsets, in the order the fill visits them. */
  const Offsets: seq<(int, int)> := [(-1, 0), (1, 0), (0, -1), (0, 1)]

  /** The neighbour of c at offset number i. */
  function Step(c: Coord, i: nat): (d: Coord)
    requires i < |Offsets|
    ensures d == (c.0 + Offsets[i].0, c.1 + Offsets[i].1)
  {
    if i == 0 then (c.0 - 1, c.1)
    else if i == 1 then (c.0 + 1, c.1)
    else if i == 2 then (c.0, c.1 - 1)
    else (c.0, c.1 + 1)
  }

  /** The four offsets reach exactly the 4-adjacent coordinates. */
  lemma StepsAreAdjacent(c: Coord, d: Coord)
    ensures Adjacent(c, d) <==> exists i :: 0 <= i < |Offsets| && d == Step(c, i)
  {
    if Adjacent(c, d) {
      if d == (c.0 - 1, c.1) { assert d == Step(c, 0); }
      else if d == (c.0 + 1, c.1) { assert d == Step(c, 1); }
      else if d == (c.0, c.1 - 1) { assert d == Step(c, 2); }
      else { assert d == Step(c, 3); }
    }
  }

  /** A path that the fill can follow: it starts on the border, every pixel on
      it is fillable, and consecutive pixels are 4-adjacent. */
  ghost predicate IsFillPath(g: Image, p: seq<Coord>)
    decreases |p|
  {
    && |p| >= 1
    && Fillable(g, p[|p| - 1])
    && (if |p| == 1 then OnBorder(g, p[0])
        else Adjacent(p[|p| - 2], p[|p| - 1]) && IsFillPath(g, p[..|p| - 1]))
  }

  ghost predicate Reachable(g: Image, c: Coord)
  {
    exists p :: IsFillPath(g, p) && p[|p| - 1] == c
  }

  /** The background: every pixel reachable from a border seed. */
  ghost function Background(g: Image): (s: set<Coord>)
    ensures forall c :: c in s <==> InBounds(g, c) && Reachable(g, c)
  {
    var s := set x, y | 0 <= x < Width(g) && 0 <= y < Height(g) && Reachable(g, (x, y)) :: (x, y);
    assert forall c :: InBounds(g, c) && Reachable(g, c) ==> (c.0, c.1) in s;
    s
  }

  /** Every neighbour of c that the fill would accept is already in s. */
  ghost predicate Settled(g: Image, s: set<Coord>, c: Coord)
  {
    forall i :: 0 <= i < |Offsets| ==> Fillable(g, Step(c, i)) ==> Step(c, i) in s
  }

  /** No fill step leads out of s. */
  ghost predicate Closed(g: Image, s: set<Coord>)
  {
    forall c :: c in s ==> Settled(g, s, c)
  }

  /** Adding coordinates never unsettles one. */
  lemma SettledGrows(g: Image, s: set<Coord>, t: set<Coord>)
    requires s <= t
    ensures forall c {:trigger Settled(g, t, c)} :: Settled(g, s, c) ==> Settled(g, t, c)
  {
  }

  /** Every pixel of the background is fillable: a pixel that is light or
      transparent never joins it, whatever touches it diagonally or otherwise. */
  lemma BackgroundIsFillable(g: Image, c: Coord)
    requires c in Background(g)
    ensures Fillable(g, c)
  {
    var p :| IsFillPath(g, p) && p[|p| - 1] == c;
  }

  /** A path ending at c continues to any fillable neighbour of c. */
  lemma ExtendPath(g: Image, p: seq<Coord>, d: Coord)
    requires IsFillPath(g, p) && Adjacent(p[|p| - 1], d) && Fillable(g, d)
    ensures IsFillPath(g, p + [d])
  {
    assert (p + [d])[..|p|] == p;
  }

  /** The end of every fill path belongs to the background. */
  lemma PathEndInBackground(g: Image, p: seq<Coord>)
    requires IsFillPath(g, p)
    ensures p[|p| - 1] in Background(g)
  {
    assert Fillable(g, p[|p| - 1]);
    assert Reachable(g, p[|p| - 1]);
  }

  /** A fill step from the background stays in the background. */
  lemma StepStaysInBackground(g: Image, c: Coord, d: Coord)
    requires c in Background(g) && Adjacent(c, d) && Fillable(g, d)
    ensures d in Background(g)
  {
    var p :| IsFillPath(g, p) && p[|p| - 1] == c;
    ExtendPath(g, p, d);
    PathEndInBackground(g, p + [d]);
  }

  lemma SeedsInBackground(g: Image)
    ensures Seeds(g) <= Background(g)
  {
    forall c | c in Seeds(g)
      ensures c in Background(g)
    {
      PathEndInBackground(g, [c]);
    }
  }

  /** Every coordinate of s comes with a fill path that ends at it. */
  ghost predicate Witnessed(g: Image, s: set<Coord>, paths: map<Coord, seq<Coord>>)
  {
    forall c {:trigger paths[c]} {:trigger c in paths} :: c in s ==> c in paths && IsFillPath(g, paths[c]) && paths[c][|paths[c]| - 1] == c
  }

  lemma WitnessedInBackground(g: Image, s: set<Coord>, paths: map<Coord, seq<Coord>>)
    requires Witnessed(g, s, paths)
    ensures s <= Background(g)
  {
    forall c | c in s
      ensures c in Background(g)
    {
      PathEndInBackground(g, paths[c]);
    }
  }

  /** The paths of s, and for every coordinate added next to c the path of c
      continued by one step. */
  ghost function ExtendedPaths(s: set<Coord>, t: set<Coord>, paths: map<Coord, seq<Coord>>, c: Coord): map<Coord, seq<Coord>>
    requires c in paths && s <= paths.Keys
  {
    map d | d in t :: if d in s then paths[d] else paths[c] + [d]
  }

  lemma WitnessedKeys(g: Image, s: set<Coord>, paths: map<Coord, seq<Coord>>)
    requires Witnessed(g, s, paths)
    ensures s <= paths.Keys
  {
    forall d | d in s
      ensures d in paths.Keys
    {
      assert d in paths;
    }
  }

  /** The extended path of one member of t is a fill path that ends at it. */
  lemma ExtendedPathOf(g: Image, s: set<Coord>, t: set<Coord>, paths: map<Coord, seq<Coord>>, c: Coord, d: Coord)
    requires Witnessed(g, s, paths) && c in s && s <= paths.Keys && d in t
    requires d !in s ==> Adjacent(c, d) && Fillable(g, d)
    ensures d in ExtendedPaths(s, t, paths, c)
    ensures IsFillPath(g, ExtendedPaths(s, t, paths, c)[d])
    ensures ExtendedPaths(s, t, paths, c)[d][|ExtendedPaths(s, t, paths, c)[d]| - 1] == d
  {
    var q := ExtendedPaths(s, t, paths, c);
    if d in s {
      assert q[d] == paths[d];
    } else {
      assert q[d] == paths[c] + [d];
      ExtendPath(g, paths[c], d);
    }
  }

  /** Growing s by fill steps from one of its members keeps every member witnessed. */
  lemma WitnessedGrows(g: Image, s: set<Coord>, t: set<Coord>, paths: map<Coord, seq<Coord>>, c: Coord)
    requires Witnessed(g, s, paths) && c in s
    requires forall d :: d in t && d !in s ==> Adjacent(c, d) && Fillable(g, d)
    ensures c in paths && s <= paths.Keys
    ensures Witnessed(g, t, ExtendedPaths(s, t, paths, c))
  {
    WitnessedKeys(g, s, paths);
    var q := ExtendedPaths(s, t, paths, c);
    forall d | d in t
      ensures d in q && IsFillPath(g, q[d]) && q[d][|q[d]| - 1] == d
    {
      ExtendedPathOf(g, s, t, paths, c, d);
    }
  }

  /** A witnessed set has at most w * h members. */
  lemma WitnessedSize(g: Image, s: set<Coord>, paths: map<Coord, seq<Coord>>)
    requires Witnessed(g, s, paths)
    ensures |s| <= Width(g) * Height(g)
  {
    forall c | c in s
      ensures InBounds(g, c)
    {
      assert c in paths;
    }
    InBoundsSize(g, s);
  }

  /** The background holds the seeds and is closed under fill steps. */
  lemma BackgroundIsClosed(g: Image)
    ensures Seeds(g) <= Background(g)
    ensures Closed(g, Background(g))
  {
    SeedsInBackground(g);
    forall c | c in Background(g)
      ensures Settled(g, Background(g), c)
    {
      forall i | 0 <= i < |Offsets| && Fillable(g, Step(c, i))
        ensures Step(c, i) in Background(g)
      {
        StepsAreAdjacent(c, Step(c, i));
        StepStaysInBackground(g, c, Step(c, i));
      }
    }
  }

  lemma {:induction false} PathStaysInClosedSet(g: Image, s: set<Coord>, p: seq<Coord>)
    requires Seeds(g) <= s && Closed(g, s)
    requires IsFillPath(g, p)
    ensures p[|p| - 1] in s
    decreases |p|
  {
    if |p| > 1 {
      var q := p[..|p| - 1];
      PathStaysInClosedSet(g, s, q);
      assert Settled(g, s, p[|p| - 2]);
      assert Adjacent(p[|p| - 2], p[|p| - 1]);
      StepsAreAdjacent(p[|p| - 2], p[|p| - 1]);
    }
  }

  /** The background is the least closed set holding the seeds: any fill that
      starts from the seeds and stops only when closed has found all of it. */
  lemma BackgroundIsLeast(g: Image, s: set<Coord>)
    requires Seeds(g) <= s && Closed(g, s)
    ensures Background(g) <= s
  {
    forall c | c in Background(g)
      ensures c in s
    {
      var p :| IsFillPath(g, p) && p[|p| - 1] == c;
      PathStaysInClosedSet(g, s, p);
    }
  }

  /** The fill enters a pixel only from one of its four neighbours: an inner
      pixel of the background has a 4-neighbour in the background, so a pixel
      that touches the background only at its corners stays out of it. */
  lemma EnteredFromNeighbour(g: Image, d: Coord)
    requires d in Background(g) && !OnBorder(g, d)
    ensures exists i :: 0 <= i < |Offsets| && Step(d, i) in Background(g)
  {
    var p :| IsFillPath(g, p) && p[|p| - 1] == d;
    var q := p[..|p| - 1];
    assert q[|q| - 1] == p[|p| - 2];
    PathEndInBackground(g, q);
    StepsAreAdjacent(d, p[|p| - 2]);
  }

  /** All coordinates of a w-by-h grid. */
  ghost function Cells(w: nat, h: nat): (s: set<Coord>)
    ensures forall c :: c in s <==> 0 <= c.0 < w && 0 <= c.1 < h
  {
    var s := set x, y | 0 <= x < w && 0 <= y < h :: (x, y);
    assert forall c: Coord :: 0 <= c.0 < w && 0 <= c.1 < h ==> (c.0, c.1) in s;
    s
  }

  ghost function Row(w: nat, y: int): (s: set<Coord>)
    ensures forall c :: c in s <==> 0 <= c.0 < w && c.1 == y
  {
    var s := set x | 0 <= x < w :: (x, y);
    assert forall c: Coord :: 0 <= c.0 < w && c.1 == y ==> (c.0, y) in s;
    s
  }

  lemma {:induction false} RowSize(w: nat, y: int)
    ensures |Row(w, y)| == w
  {
    if w > 0 {
      RowSize(w - 1, y);
      assert Row(w, y) == Row(w - 1, y) + {(w - 1, y)};
    }
  }

  /** The grid of height h is the grid of height h - 1 plus its last row. */
  lemma CellsSplit(w: nat, h: nat)
    requires h > 0
    ensures Cells(w, h) == Cells(w, h - 1) + Row(w, h - 1)
    ensures Cells(w, h - 1) !! Row(w, h - 1)
  {
    assert forall c :: c in Cells(w, h) ==> c in Cells(w, h - 1) + Row(w, h - 1);
  }

  lemma {:induction false} CellsSize(w: nat, h: nat)
    ensures |Cells(w, h)| == w * h
  {
    if h > 0 {
      CellsSize(w, h - 1);
      RowSize(w, h - 1);
      CellsSplit(w, h);
      var rest, row := Cells(w, h - 1), Row(w, h - 1);
      assert |rest + row| == |rest| + |row|;
      MultiplyStep(w, h);
    }
  }

  lemma MultiplyStep(w: nat, h: nat)
    requires h > 0
    ensures w * (h - 1) + w == w * h
  {
  }

  /** A set of in-bounds coordinates has at most w * h members. */
  lemma InBoundsSize(g: Image, s: set<Coord>)
    requires forall c :: c in s ==> InBounds(g, c)
    ensures |s| <= Width(g) * Height(g)
  {
    var all := Cells(Width(g), Height(g));
    CellsSize(Width(g), Height(g));
    assert all == s + (all - s);
  }
}
