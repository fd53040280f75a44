/** The heuristic background remover used when no segmentation library is
    installed: every near-white pixel becomes transparent white, every other
    pixel is kept as it is (app.py:43-54). */
module Fallback {
  import opened Pixels

  /** Each of R, G and B must be strictly above this to count as background. */
  const Threshold: int := 200

  /** The per-pixel test of app.py:49. A band equal to 200 is foreground. */
  predicate IsNearWhite(p: Pixel)
    ensures p == TransparentWhite ==> IsNearWhite(p)
  {
    p.r > Threshold && p.g > Threshold && p.b > Threshold
  }

  /** What the loop appends for one input pixel: either the pixel itself or
      transparent white, and on the same side of the threshold as the input. */
  function Classify(p: Pixel): (q: Pixel)
    ensures q == p || q == TransparentWhite
    ensures IsNearWhite(q) <==> IsNearWhite(p)
    ensures q.a != p.a ==> IsNearWhite(p) && q.a == 0
  {
    if IsNearWhite(p) then TransparentWhite else p
  }

  /** The list the loop builds: the classified pixels, in input order. It is
      defined by its last element, since the loop appends. */
  function Knockout(s: seq<Pixel>): (out: seq<Pixel>)
    ensures |out| == |s|
  {
    if s == [] then [] else Knockout(s[..|s| - 1]) + [Classify(s[|s| - 1])]
  }

  /** The `for item in datas` loop of app.py:46-52, appending to newData. */
  method KnockoutLoop(datas: seq<Pixel>) returns (newData: seq<Pixel>)
    ensures newData == Knockout(datas)
  {
    newData := [];
    for i := 0 to |datas|
      invariant newData == Knockout(datas[..i])
    {
      var item := datas[i];
      assert datas[..i + 1][..i] == datas[..i];
      if item.r > 200 && item.g > 200 && item.b > 200 {
        newData := newData + [Rgba(255, 255, 255, 0)];
      } else {
        newData := newData + [item];
      }
    }
    assert datas[..|datas|] == datas;
  }

  /** Output pixel k depends on input pixel k alone: it is transparent white
      when R, G and B all exceed 200, whatever the input alpha, and the input
      pixel itself, alpha included, otherwise. */
  lemma {:induction false} KnockoutAt(s: seq<Pixel>, k: nat)
    requires k < |s|
    ensures IsNearWhite(s[k]) ==> Knockout(s)[k] == TransparentWhite
    ensures !IsNearWhite(s[k]) ==> Knockout(s)[k] == s[k]
  {
    if k < |s| - 1 {
      KnockoutAt(s[..|s| - 1], k);
    }
  }

  /** Transparent white passes the threshold and maps to itself. */
  lemma ClassifyIdempotent(p: Pixel)
    ensures Classify(Classify(p)) == Classify(p)
  {
  }

  /** Running the heuristic on its own output changes nothing. */
  lemma {:induction false} KnockoutIdempotent(s: seq<Pixel>)
    ensures Knockout(Knockout(s)) == Knockout(s)
  {
    if s != [] {
      var init, last := s[..|s| - 1], s[|s| - 1];
      var t := Knockout(s);
      assert t == Knockout(init) + [Classify(last)];
      assert t[..|t| - 1] == Knockout(init);
      assert t[|t| - 1] == Classify(last);
      KnockoutIdempotent(init);
      ClassifyIdempotent(last);
    }
  }

  /** The heuristic works pixel by pixel: splitting the input anywhere and
      processing the parts separately gives the same list, so no pixel is
      dropped, duplicated or moved. */
  lemma {:induction false} KnockoutConcat(a: seq<Pixel>, b: seq<Pixel>)
    ensures Knockout(a + b) == Knockout(a) + Knockout(b)
  {
    if b == [] {
      assert a + b == a;
    } else {
      var init, last := b[..|b| - 1], b[|b| - 1];
      assert (a + b)[..|a + b| - 1] == a + init;
      assert (a + b)[|a + b| - 1] == last;
      KnockoutConcat(a, init);
      assert Knockout(a + b) == Knockout(a) + Knockout(init) + [Classify(last)];
    }
  }
}
