/** The background remover as the program runs it: the pixel buffer is a
    two-dimensional array indexed [x, y], scanned and overwritten in place.
    Each stage is proved against the value-level definitions of Region and
    Pipeline. */
module Remover {
  import opened Luminance
  import opened Region
  import opened Pipeline

  /** The pixel buffer read as a value, column by column. */
  ghost function Contents(px: array2<Pixel>): (g: seq<seq<Pixel>>)
    reads px
    ensures |g| == px.Length0
    ensures forall x :: 0 <= x < px.Length0 ==> |g[x]| == px.Length1
    ensures forall x, y :: 0 <= x < px.Length0 && 0 <= y < px.Length1 ==> g[x][y] == px[x, y]
    ensures px.Length0 >= 1 && px.Length1 >= 1 ==> IsImage(g)
  {
    seq(px.Length0, x requires 0 <= x < px.Length0 reads px =>
      seq(px.Length1, y requires 0 <= y < px.Length1 reads px => px[x, y]))
  }

  /** A buffer holding r's pixels at r's size reads as r. */
  lemma SameContents(px: array2<Pixel>, r: seq<seq<Pixel>>)
    requires |r| == px.Length0 && forall x :: 0 <= x < |r| ==> |r[x]| == px.Length1
    requires forall x, y :: 0 <= x < px.Length0 && 0 <= y < px.Length1 ==> px[x, y] == r[x][y]
    ensures Contents(px) == r
  {
    var g := Contents(px);
    forall x | 0 <= x < |r|
      ensures g[x] == r[x]
    {
      assert forall y :: 0 <= y < px.Length1 ==> g[x][y] == r[x][y];
    }
  }

  /** Coordinates the scan of the top and bottom rows has visited once the
      columns below n are done. */
  ghost predicate InRowScan(g: Image, c: Coord, n: int)
  {
    0 <= c.0 < n && (c.1 == 0 || c.1 == Height(g) - 1)
  }

  /** Coordinates the scan of the left and right columns has visited once the
      rows below n are done. */
  ghost predicate InColumnScan(g: Image, c: Coord, n: int)
  {
    0 <= c.1 < n && (c.0 == 0 || c.0 == Width(g) - 1)
  }

  /** The border scan: top and bottom row first, then left and right column;
      a corner is met twice and kept once. */
  method CollectSeeds(px: array2<Pixel>) returns (toRemove: set<Coord>)
    requires px.Length0 >= 1 && px.Length1 >= 1
    ensures toRemove == Seeds(Contents(px))
  {
    ghost var g: Image := Contents(px);
    var w, h := px.Length0, px.Length1;
    toRemove := {};
    for x := 0 to w
      invariant forall c :: c in toRemove <==> InRowScan(g, c, x) && Fillable(g, c)
    {
      var ys := [0, h - 1];
      for k := 0 to |ys|
        invariant forall c :: c in toRemove <==>
          (InRowScan(g, c, x) || (c.0 == x && c.1 in ys[..k])) && Fillable(g, c)
      {
        var y := ys[k];
        var p := px[x, y];
        if p.a > 0 && IsDark(p) {
          toRemove := toRemove + {(x, y)};
        }
        assert ys[..k + 1] == ys[..k] + [y];
      }
      assert ys[..|ys|] == ys;
    }
    for y := 0 to h
      invariant forall c :: c in toRemove <==>
        (InRowScan(g, c, w) || InColumnScan(g, c, y)) && Fillable(g, c)
    {
      var xs := [0, w - 1];
      for k := 0 to |xs|
        invariant forall c :: c in toRemove <==>
          (InRowScan(g, c, w) || InColumnScan(g, c, y) || (c.1 == y && c.0 in xs[..k])) && Fillable(g, c)
      {
        var x := xs[k];
        var p := px[x, y];
        if p.a > 0 && IsDark(p) {
          toRemove := toRemove + {(x, y)};
        }
        assert xs[..k + 1] == xs[..k] + [x];
      }
      assert xs[..|xs|] == xs;
    }
  }

  /** The seeds as a list, each once, in an order the model leaves open. */
  method ListOf(s: set<Coord>) returns (xs: seq<Coord>)
    ensures forall c :: c in xs <==> c in s
    ensures |xs| == |s|
    ensures forall i, j :: 0 <= i < j < |xs| ==> xs[i] != xs[j]
  {
    xs := [];
    var rest := s;
    while rest != {}
      invariant rest <= s
      invariant forall c :: c in xs <==> c in s - rest
      invariant |xs| + |rest| == |s|
      invariant forall i, j :: 0 <= i < j < |xs| ==> xs[i] != xs[j]
      decreases |rest|
    {
      var c :| c in rest;
      assert c !in xs;
      xs := xs + [c];
      rest := rest - {c};
    }
  }

  /** One turn of the fill loop for a popped coordinate c: every neighbour,
      left, right, up and down in that order, that is in bounds, not yet in the
      set, visible and dark is added to the set and pushed on the stack. */
  method PushNeighbours(px: array2<Pixel>, c: Coord, toRemove: set<Coord>, stack: seq<Coord>)
    returns (grown: set<Coord>, pushed: seq<Coord>)
    requires px.Length0 >= 1 && px.Length1 >= 1
    ensures toRemove <= grown
    ensures Settled(Contents(px), grown, c)
    ensures forall d :: d in grown && d !in toRemove ==> Adjacent(c, d) && Fillable(Contents(px), d)
    ensures |stack| <= |pushed| && pushed[..|stack|] == stack
    ensures forall d :: d in pushed[|stack|..] <==> d in grown && d !in toRemove
    ensures |grown| - |toRemove| == |pushed| - |stack|
  {
    ghost var g: Image := Contents(px);
    var w, h := px.Length0, px.Length1;
    grown, pushed := toRemove, stack;
    for i := 0 to |Offsets|
      invariant toRemove <= grown
      invariant forall j :: 0 <= j < i ==> Fillable(g, Step(c, j)) ==> Step(c, j) in grown
      invariant forall d :: d in grown && d !in toRemove ==> Adjacent(c, d) && Fillable(g, d)
      invariant |stack| <= |pushed| && pushed[..|stack|] == stack
      invariant forall d :: d in pushed[|stack|..] <==> d in grown && d !in toRemove
      invariant |grown| - |toRemove| == |pushed| - |stack|
    {
      var (dx, dy) := Offsets[i];
      var nx, ny := c.0 + dx, c.1 + dy;
      assert (nx, ny) == Step(c, i);
      if 0 <= nx < w && 0 <= ny < h && (nx, ny) !in grown {
        var p := px[nx, ny];
        if p.a > 0 && IsDark(p) {
          assert (pushed + [(nx, ny)])[|stack|..] == pushed[|stack|..] + [(nx, ny)];
          grown := grown + {(nx, ny)};
          pushed := pushed + [(nx, ny)];
        }
      }
    }
  }

  /** What the fill loop keeps true of the set s and the stack: s holds the
      seeds, every member has a fill path, the stack holds only members, and a
      member off the stack has all its fillable neighbours in s. */
  ghost predicate FillInvariant(g: Image, s: set<Coord>, stack: seq<Coord>, paths: map<Coord, seq<Coord>>)
  {
    && Seeds(g) <= s
    && Witnessed(g, s, paths)
    && (forall i :: 0 <= i < |stack| ==> stack[i] in s)
    && (forall d {:trigger Settled(g, s, d)} :: d in s && d !in stack ==> Settled(g, s, d))
  }

  /** One turn of the fill loop keeps its invariant: c was popped from
      waiting + [c], the set grew from before to after by fillable neighbours
      of c, and the stack grew from waiting by exactly the new members. */
  lemma FillTurn(g: Image, c: Coord, before: set<Coord>, waiting: seq<Coord>, paths: map<Coord, seq<Coord>>,
                 after: set<Coord>, stack: seq<Coord>)
    requires FillInvariant(g, before, waiting + [c], paths)
    requires before <= after && Settled(g, after, c)
    requires forall d :: d in after && d !in before ==> Adjacent(c, d) && Fillable(g, d)
    requires |waiting| <= |stack| && stack[..|waiting|] == waiting
    requires forall d :: d in stack[|waiting|..] <==> d in after && d !in before
    ensures c in paths && before <= paths.Keys
    ensures FillInvariant(g, after, stack, ExtendedPaths(before, after, paths, c))
    ensures |after| <= Width(g) * Height(g)
  {
    assert (waiting + [c])[|waiting|] == c;
    WitnessedGrows(g, before, after, paths, c);
    WitnessedSize(g, after, ExtendedPaths(before, after, paths, c));
    SettledGrows(g, before, after);
    forall i | 0 <= i < |stack|
      ensures stack[i] in after
    {
      if i < |waiting| {
        assert stack[i] == waiting[i] == (waiting + [c])[i];
      } else {
        assert stack[i] == stack[|waiting|..][i - |waiting|];
      }
    }
    forall d | d in after && d !in stack
      ensures Settled(g, after, d)
    {
      assert d !in stack[|waiting|..];
      forall k | 0 <= k < |waiting|
        ensures (waiting + [c])[k] != d
      {
        assert stack[k] == waiting[k];
      }
      if d != c {
        assert d !in waiting + [c];
      }
    }
  }

  /** The stack-driven flood fill. A coordinate is pushed only when it is newly
      added to the set, so the loop pops exactly as many coordinates as the
      final set holds, at most w * h; and whatever order the pops take, the
      set it stops with is the background. */
  method FloodFill(px: array2<Pixel>, seeds: set<Coord>) returns (toRemove: set<Coord>, ghost pops: nat)
    requires px.Length0 >= 1 && px.Length1 >= 1
    requires seeds == Seeds(Contents(px))
    ensures toRemove == Background(Contents(px))
    ensures pops == |toRemove| <= px.Length0 * px.Length1
  {
    ghost var g: Image := Contents(px);
    var w, h := px.Length0, px.Length1;
    toRemove := seeds;
    var stack := ListOf(seeds);
    pops := 0;
    // a fill path to every member, kept only for the proof
    ghost var paths: map<Coord, seq<Coord>> := map c | c in seeds :: [c];
    WitnessedSize(g, toRemove, paths);
    while stack != []
      invariant FillInvariant(g, toRemove, stack, paths)
      invariant pops + |stack| == |toRemove| <= w * h
      decreases w * h - |toRemove|, |stack|
    {
      var c := stack[|stack| - 1];
      ghost var before, all := toRemove, stack;
      stack := stack[..|stack| - 1];
      ghost var waiting := stack;
      assert all == waiting + [c];
      pops := pops + 1;
      toRemove, stack := PushNeighbours(px, c, toRemove, stack);
      FillTurn(g, c, before, waiting, paths, toRemove, stack);
      paths := ExtendedPaths(before, toRemove, paths, c);
    }
    WitnessedInBackground(g, toRemove, paths);
    BackgroundIsLeast(g, toRemove);
  }

  /** Every coordinate of the set made transparent, colour kept. */
  method ClearSet(px: array2<Pixel>, toRemove: set<Coord>)
    requires px.Length0 >= 1 && px.Length1 >= 1
    requires forall c :: c in toRemove ==> 0 <= c.0 < px.Length0 && 0 <= c.1 < px.Length1
    modifies px
    ensures Contents(px) == Cleared(old(Contents(px)), toRemove)
  {
    ghost var g: Image := Contents(px);
    var rest := toRemove;
    while rest != {}
      invariant rest <= toRemove
      invariant forall x, y :: 0 <= x < px.Length0 && 0 <= y < px.Length1 ==>
        px[x, y] == if (x, y) in toRemove - rest then Transparent(g[x][y]) else g[x][y]
      decreases |rest|
    {
      var c :| c in rest;
      var (x, y) := c;
      var p := px[x, y];
      px[x, y] := Pixel(p.r, p.g, p.b, 0);
      rest := rest - {c};
    }
    SameContents(px, Cleared(g, toRemove));
  }

  /** The whole-image scan that makes every visible very dark pixel transparent. */
  method ClearVeryDark(px: array2<Pixel>)
    requires px.Length0 >= 1 && px.Length1 >= 1
    modifies px
    ensures Contents(px) == WithoutVeryDark(old(Contents(px)))
  {
    ghost var g: Image := Contents(px);
    var w, h := px.Length0, px.Length1;
    for x := 0 to w
      invariant forall i, j :: 0 <= i < w && 0 <= j < h ==>
        px[i, j] == if i < x && VisibleVeryDark(g[i][j]) then Transparent(g[i][j]) else g[i][j]
    {
      for y := 0 to h
        invariant forall i, j :: 0 <= i < w && 0 <= j < h ==>
          px[i, j] == if (i < x || (i == x && j < y)) && VisibleVeryDark(g[i][j])
                      then Transparent(g[i][j]) else g[i][j]
      {
        var p := px[x, y];
        if p.a > 0 && IsVeryDark(p) {
          px[x, y] := Pixel(p.r, p.g, p.b, 0);
        }
      }
    }
    SameContents(px, WithoutVeryDark(g));
  }

  /** The pixel-processing body of the program: seed scan, flood fill, removal
      of the background, removal of isolated very dark pixels. A 0 by 0 image
      passes through unchanged, since every scan over it is empty; an image
      with exactly one dimension 0 makes the program index out of range. */
  method RemoveBackground(px: array2<Pixel>)
    requires (px.Length0 >= 1 && px.Length1 >= 1) || (px.Length0 == 0 && px.Length1 == 0)
    modifies px
    ensures px.Length0 >= 1 ==> Contents(px) == Result(old(Contents(px)))
    ensures px.Length0 == 0 ==> Contents(px) == old(Contents(px))
  {
    if px.Length0 == 0 {
      return;
    }
    var seeds := CollectSeeds(px);
    var toRemove;
    ghost var pops;
    toRemove, pops := FloodFill(px, seeds);
    ClearSet(px, toRemove);
    ClearVeryDark(px);
  }
}
