/** What the remover does to an image, stage by stage, as functions on values,
    and the guarantees of the whole: colour and size kept, alpha only lowered to
    zero, and a second run changes nothing. */
module Pipeline {
  import opened Luminance
  import opened Region

  /** The image with every pixel whose coordinate is in s made transparent. */
  function Cleared(g: Image, s: set<Coord>): (r: Image)
    ensures Width(r) == Width(g) && Height(r) == Height(g)
    ensures forall x, y :: 0 <= x < Width(g) && 0 <= y < Height(g) ==>
      r[x][y] == if (x, y) in s then Transparent(g[x][y]) else g[x][y]
  {
    seq(|g|, x requires 0 <= x < |g| =>
      seq(|g[0]|, y requires 0 <= y < |g[0]| =>
        if (x, y) in s then Transparent(g[x][y]) else g[x][y]))
  }

  /** A pixel that the isolated-pixel cleanup removes. */
  predicate VisibleVeryDark(p: Pixel)
  {
    p.a > 0 && IsVeryDark(p)
  }

  /** The image with every visible very dark pixel made transparent. */
  function WithoutVeryDark(g: Image): (r: Image)
    ensures Width(r) == Width(g) && Height(r) == Height(g)
    ensures forall x, y :: 0 <= x < Width(g) && 0 <= y < Height(g) ==>
      r[x][y] == if VisibleVeryDark(g[x][y]) then Transparent(g[x][y]) else g[x][y]
  {
    seq(|g|, x requires 0 <= x < |g| =>
      seq(|g[0]|, y requires 0 <= y < |g[0]| =>
        if VisibleVeryDark(g[x][y]) then Transparent(g[x][y]) else g[x][y]))
  }

  /** The image the remover writes: the background cleared, then the isolated
      very dark pixels. */
  ghost function Result(g: Image): Image
  {
    WithoutVeryDark(Cleared(g, Background(g)))
  }

  /** Size and colour are kept; alpha is either kept or set to zero, so it
      never increases and a transparent pixel stays transparent. */
  lemma ResultKeepsColour(g: Image, x: int, y: int)
    requires 0 <= x < Width(g) && 0 <= y < Height(g)
    ensures Width(Result(g)) == Width(g) && Height(Result(g)) == Height(g)
    ensures Result(g)[x][y].r == g[x][y].r
    ensures Result(g)[x][y].g == g[x][y].g
    ensures Result(g)[x][y].b == g[x][y].b
    ensures Result(g)[x][y].a == 0 || Result(g)[x][y].a == g[x][y].a
    ensures Result(g)[x][y].a <= g[x][y].a
    ensures g[x][y].a == 0 ==> Result(g)[x][y].a == 0
  {
  }

  /** A pixel ends transparent exactly when it was transparent, in the
      background or very dark; otherwise it keeps its alpha exactly. */
  lemma ResultAlpha(g: Image, x: int, y: int)
    requires 0 <= x < Width(g) && 0 <= y < Height(g)
    ensures Result(g)[x][y].a == 0 <==>
      g[x][y].a == 0 || (x, y) in Background(g) || IsVeryDark(g[x][y])
    ensures Result(g)[x][y].a == g[x][y].a <==>
      g[x][y].a == 0 || ((x, y) !in Background(g) && !IsVeryDark(g[x][y]))
  {
  }

  /** After the run no pixel is both visible and very dark. */
  lemma NoVeryDarkRemains(g: Image)
    ensures forall x, y :: 0 <= x < Width(g) && 0 <= y < Height(g) ==> !VisibleVeryDark(Result(g)[x][y])
  {
  }

  /** A pixel that is not dark is never touched, whatever its neighbours are:
      in particular a dark pixel that touches it only at a corner cannot make
      the fill reach it. */
  lemma LightPixelKept(g: Image, c: Coord)
    requires InBounds(g, c) && !IsDark(At(g, c))
    ensures At(Result(g), c) == At(g, c)
  {
    if c in Background(g) {
      BackgroundIsFillable(g, c);
    }
    VeryDarkIsDark(At(g, c));
  }

  /** After the run no border pixel is visible and dark, so a second fill has
      no seed. */
  lemma ResultHasNoSeeds(g: Image)
    ensures Seeds(Result(g)) == {}
  {
    var r := Result(g);
    BackgroundIsClosed(g);
    forall c | InBounds(r, c)
      ensures !Fillable(r, c) || !OnBorder(r, c)
    {
      ResultKeepsColour(g, c.0, c.1);
      if Fillable(g, c) && OnBorder(g, c) {
        assert c in Background(g);
        assert At(r, c).a == 0;
      }
    }
  }

  /** After the run the background is empty. */
  lemma ResultHasNoBackground(g: Image)
    ensures Background(Result(g)) == {}
  {
    ResultHasNoSeeds(g);
    BackgroundIsLeast(Result(g), {});
  }

  /** Running the remover on its own output changes nothing. */
  lemma ResultIdempotent(g: Image)
    ensures Result(Result(g)) == Result(g)
  {
    var r := Result(g);
    ResultHasNoBackground(g);
    NoVeryDarkRemains(g);
    var r1 := Cleared(r, {});
    assert r1 == r by {
      forall x | 0 <= x < Width(r)
        ensures r1[x] == r[x]
      {
      }
    }
    var r2 := WithoutVeryDark(r);
    assert r2 == r by {
      forall x | 0 <= x < Width(r)
        ensures r2[x] == r[x]
      {
      }
    }
  }
}
