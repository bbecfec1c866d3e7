/**
 * The in-place pixel passes of the switcher's `render_frame`
 * (src/switcher.cpp:300-401): forcing the alpha byte of the background,
 * saving the background under a chip, and fading the drawn chip in over the
 * saved background with the integer per-channel blend.
 */
module Compose {
  import opened Texels
  import opened Geometry

  /** A rectangle of the pixel buffer: columns left .. left+cw-1, rows top .. top+ch-1. */
  datatype Area = Area(left: nat, top: nat, cw: nat, ch: nat)

  /** The area lies inside a buffer w texels wide and h rows high. */
  predicate Fits(r: Area, w: nat, h: nat)
  {
    r.left + r.cw <= w && r.top + r.ch <= h
  }

  /** Flat index k of a buffer w texels wide lies inside the area. */
  predicate InArea(k: nat, w: nat, r: Area)
    requires w > 0
  {
    r.left <= Col(k, w) < r.left + r.cw && r.top <= Row(k, w) < r.top + r.ch
  }

  /** Where texel k of the area sits in a row-major copy of the area (`cy * cw + cx`). */
  function LocalIdx(k: nat, w: nat, r: Area): (j: nat)
    requires w > 0 && InArea(k, w, r)
    ensures j < r.cw * r.ch
  {
    IdxBelow(Col(k, w) - r.left, Row(k, w) - r.top, r.cw, r.ch);
    Idx(Col(k, w) - r.left, Row(k, w) - r.top, r.cw)
  }

  /**
   * The background alpha fix (src/switcher.cpp:312-313): every texel of the
   * panel gets alpha 0xFF, its colour bytes unchanged.
   */
  method ForceOpaque(a: array<Texel>)
    modifies a
    ensures forall k :: 0 <= k < a.Length ==> a[k] == WithOpaqueAlpha(old(a[k]))
  {
    for i := 0 to a.Length
      invariant forall k :: 0 <= k < i ==> a[k] == WithOpaqueAlpha(old(a[k]))
      invariant forall k :: i <= k < a.Length ==> a[k] == old(a[k])
    {
      a[i] := WithOpaqueAlpha(a[i]);
    }
  }

  /**
   * Saving the background under a chip (src/switcher.cpp:339-345): a
   * row-major copy of the area, `saved[cy * cw + cx]` being the texel at
   * column left+cx of row top+cy.
   */
  method SaveArea(a: array<Texel>, w: nat, h: nat, r: Area) returns (saved: seq<Texel>)
    requires w > 0 && a.Length == w * h && Fits(r, w, h)
    ensures |saved| == r.cw * r.ch
    ensures forall k :: 0 <= k < a.Length && InArea(k, w, r) ==> saved[LocalIdx(k, w, r)] == a[k]
  {
    saved := [];
    for cy := 0 to r.ch
      invariant |saved| == cy * r.cw <= r.cw * r.ch
      invariant forall j :: 0 <= j < |saved| ==> saved[j] == a[AreaIdx(j, w, h, r)]
    {
      MulMonotone(cy + 1, r.ch, r.cw);
      saved := SaveRow(a, w, h, r, cy, saved);
    }
    forall k | 0 <= k < a.Length && InArea(k, w, r) ensures saved[LocalIdx(k, w, r)] == a[k] {
      SavedEntry(k, w, h, r);
    }
  }

  /** Appends row cy of the area to the rows already saved. */
  method SaveRow(a: array<Texel>, w: nat, h: nat, r: Area, cy: nat, prefix: seq<Texel>) returns (saved: seq<Texel>)
    requires w > 0 && a.Length == w * h && Fits(r, w, h) && cy < r.ch
    requires (cy + 1) * r.cw <= r.cw * r.ch
    requires |prefix| == cy * r.cw
    requires forall j :: 0 <= j < |prefix| ==> prefix[j] == a[AreaIdx(j, w, h, r)]
    ensures |saved| == (cy + 1) * r.cw
    ensures forall j :: 0 <= j < |saved| ==> saved[j] == a[AreaIdx(j, w, h, r)]
  {
    saved := prefix;
    for cx := 0 to r.cw
      invariant |saved| == cy * r.cw + cx
      invariant forall j :: 0 <= j < |saved| ==> saved[j] == a[AreaIdx(j, w, h, r)]
    {
      IdxRowCol(cx, cy, r.cw);
      IdxBelow(cx, cy, r.cw, r.ch);
      IdxBelow(r.left + cx, r.top + cy, w, h);
      saved := saved + [a[Idx(r.left + cx, r.top + cy, w)]];
    }
    assert cy * r.cw + r.cw == (cy + 1) * r.cw;
  }

  /** The copy entry of texel k of the area is k itself. */
  lemma SavedEntry(k: nat, w: nat, h: nat, r: Area)
    requires w > 0 && k < w * h && Fits(r, w, h) && InArea(k, w, r)
    ensures AreaIdx(LocalIdx(k, w, r), w, h, r) == k
  {
    IdxRowCol(Col(k, w) - r.left, Row(k, w) - r.top, r.cw);
    IdxOfRowCol(k, w);
  }

  /** The buffer index of entry j of a row-major copy of the area. */
  function AreaIdx(j: nat, w: nat, h: nat, r: Area): (k: nat)
    requires w > 0 && Fits(r, w, h) && j < r.cw * r.ch
    ensures k < w * h
  {
    var cx, cy := Col(j, r.cw), Row(j, r.cw);
    RowBelow(j, r.cw, r.ch);
    IdxBelow(r.left + cx, r.top + cy, w, h);
    Idx(r.left + cx, r.top + cy, w)
  }

  /** The texels of the area that the nested loops (rows first) have reached. */
  predicate Reached(k: nat, w: nat, r: Area, cx: nat, cy: nat)
    requires w > 0
  {
    InArea(k, w, r) && (Row(k, w) < r.top + cy || (Row(k, w) == r.top + cy && Col(k, w) < r.left + cx))
  }

  /**
   * The partial fade-in of one chip (src/switcher.cpp:362-380): each texel
   * of the area becomes the blend of the saved background under it and the
   * drawn chip texel now there, with weight p8; nothing outside the area is
   * written.
   */
  method BlendArea(a: array<Texel>, w: nat, h: nat, r: Area, saved: seq<Texel>, p8: Byte)
    requires w > 0 && a.Length == w * h && Fits(r, w, h) && |saved| == r.cw * r.ch
    modifies a
    ensures forall k :: 0 <= k < a.Length ==>
      a[k] == if InArea(k, w, r) then BlendTexel(saved[LocalIdx(k, w, r)], old(a[k]), p8) else old(a[k])
  {
    for cy := 0 to r.ch
      invariant forall k :: 0 <= k < a.Length ==>
        a[k] == if Reached(k, w, r, 0, cy) then BlendTexel(saved[LocalIdx(k, w, r)], old(a[k]), p8) else old(a[k])
    {
      for cx := 0 to r.cw
        invariant forall k :: 0 <= k < a.Length ==>
          a[k] == if Reached(k, w, r, cx, cy) then BlendTexel(saved[LocalIdx(k, w, r)], old(a[k]), p8) else old(a[k])
      {
        var k0 := Idx(r.left + cx, r.top + cy, w);
        IdxRowCol(r.left + cx, r.top + cy, w);
        IdxBelow(r.left + cx, r.top + cy, w, h);
        IdxRowCol(cx, cy, r.cw);
        IdxBelow(cx, cy, r.cw, r.ch);
        SameCoordinates(a.Length, w, k0);
        a[k0] := BlendTexel(saved[Idx(cx, cy, r.cw)], a[k0], p8);
      }
    }
  }

  /**
   * The fully revealed chip (src/switcher.cpp:356-360): the area's texels
   * keep their colour and get alpha 0xFF; nothing outside is written.
   */
  method OpaqueArea(a: array<Texel>, w: nat, h: nat, r: Area)
    requires w > 0 && a.Length == w * h && Fits(r, w, h)
    modifies a
    ensures forall k :: 0 <= k < a.Length ==>
      a[k] == if InArea(k, w, r) then WithOpaqueAlpha(old(a[k])) else old(a[k])
  {
    for cy := 0 to r.ch
      invariant forall k :: 0 <= k < a.Length ==>
        a[k] == if Reached(k, w, r, 0, cy) then WithOpaqueAlpha(old(a[k])) else old(a[k])
    {
      for cx := 0 to r.cw
        invariant forall k :: 0 <= k < a.Length ==>
          a[k] == if Reached(k, w, r, cx, cy) then WithOpaqueAlpha(old(a[k])) else old(a[k])
      {
        var k0 := Idx(r.left + cx, r.top + cy, w);
        IdxRowCol(r.left + cx, r.top + cy, w);
        IdxBelow(r.left + cx, r.top + cy, w, h);
        SameCoordinates(a.Length, w, k0);
        a[k0] := WithOpaqueAlpha(a[k0]);
      }
    }
  }

  /**
   * FillRect and DrawTextW on one chip rectangle: every texel of the area
   * becomes what the painter gives for its position inside the area;
   * nothing outside is written (DrawTextW clips to the rectangle).
   */
  method PaintArea(a: array<Texel>, w: nat, h: nat, r: Area, paint: (nat, nat) -> Texel)
    requires w > 0 && a.Length == w * h && Fits(r, w, h)
    modifies a
    ensures forall k :: 0 <= k < a.Length ==>
      a[k] == if InArea(k, w, r) then paint(Col(k, w) - r.left, Row(k, w) - r.top) else old(a[k])
  {
    forall k | 0 <= k < a.Length && InArea(k, w, r) {
      a[k] := paint(Col(k, w) - r.left, Row(k, w) - r.top);
    }
  }
}
