/**
 multivis.c, the values: flattening a window tree back to front, against the recursive
 question "which window is topmost at this point?".
 */
module WindowTree {
  import opened Options

  /** A window as XGetWindowAttributes and XQueryTree report it; children back to front. */
  datatype Window = Window(
    id: nat, viewable: bool, inputOnly: bool,
    x: int, y: int, width: int, height: int, border: int,
    colormap: nat, children: seq<Window>)
  {
    /** Left edge of the window with its border, where the parent's origin is at `px`. */
    function Left(px: int): int { x + px }
    function Right(px: int): int { x + width + 2 * border + px }
    function Top(py: int): int { y + py }
    function Bottom(py: int): int { y + height + 2 * border + py }
    predicate Outer(px: int, py: int, p: Point) {
      Left(px) <= p.x < Right(px) && Top(py) <= p.y < Bottom(py)
    }
    predicate Drawn() { viewable && !inputOnly }
    predicate Covers(px: int, py: int, p: Point) { Drawn() && Outer(px, py, p) }
    /** Where the window's own coordinates begin, inside its border. */
    function OriginX(px: int): int { px + x + border }
    function OriginY(py: int): int { py + y + border }
    predicate Inner(px: int, py: int, p: Point) {
      OriginX(px) <= p.x < OriginX(px) + width && OriginY(py) <= p.y < OriginY(py) + height
    }
    function Own(px: int, py: int, p: Point): Hit { Hit(id, colormap, Point(p.x - OriginX(px), p.y - OriginY(py))) }
  }

  datatype Point = Point(x: int, y: int)

  datatype Rect = Rect(x: int, y: int, width: int, height: int) {
    predicate Has(p: Point) { x <= p.x < x + width && y <= p.y < y + height }
    predicate Inside(r: Rect) {
      r.x <= x && x + width <= r.x + r.width && r.y <= y && y + height <= r.y + r.height
    }
  }

  /** What the list keeps of a window: its part in the request, and that part's place in the window. */
  datatype Placed = Placed(window: nat, colormap: nat, x: int, y: int, area: Rect)

  /** A point of a window, in the window's own coordinates. */
  datatype Hit = Hit(window: nat, colormap: nat, at: Point)

  function Max(a: int, b: int): int { if a > b then a else b }
  function Min(a: int, b: int): int { if a < b then a else b }

  // ---------- the topmost window at a point ----------

  /** Children hide their parent, later ones hide earlier ones, and the server shows none of them outside their parent's inside. */
  function TopHit(w: Window, px: int, py: int, p: Point): Option<Hit>
    decreases w
  {
    if !w.Covers(px, py, p) then None
    else if !w.Inner(px, py, p) then Some(w.Own(px, py, p))
    else
      match TopChild(w.children, |w.children|, w.OriginX(px), w.OriginY(py), p)
      case Some(h) => Some(h)
      case None => Some(w.Own(px, py, p))
  }

  function TopChild(ws: seq<Window>, n: nat, px: int, py: int, p: Point): Option<Hit>
    requires n <= |ws|
    decreases ws, n
  {
    if n == 0 then None
    else
      match TopHit(ws[n - 1], px, py, p)
      case Some(h) => Some(h)
      case None => TopChild(ws, n - 1, px, py, p)
  }

  /** `TopChild` looks for the last child that is hit. */
  lemma {:induction false} LastChildHit(ws: seq<Window>, n: nat, i: nat, px: int, py: int, p: Point)
    requires i < n <= |ws| && TopHit(ws[i], px, py, p).Some? && forall j :: i < j < n ==> TopHit(ws[j], px, py, p) == None
    ensures TopChild(ws, n, px, py, p) == TopHit(ws[i], px, py, p)
    decreases n
  {
    if i + 1 < n { LastChildHit(ws, n - 1, i, px, py, p); }
  }

  lemma {:induction false} NoChildHit(ws: seq<Window>, n: nat, px: int, py: int, p: Point)
    requires n <= |ws| && forall j :: 0 <= j < n ==> TopHit(ws[j], px, py, p) == None
    ensures TopChild(ws, n, px, py, p) == None
    decreases n
  {
    if n > 0 { NoChildHit(ws, n - 1, px, py, p); }
  }

  lemma TopChildIs(ws: seq<Window>, px: int, py: int, p: Point)
    ensures (forall i :: 0 <= i < |ws| ==> TopHit(ws[i], px, py, p) == None) ==> TopChild(ws, |ws|, px, py, p) == None
    ensures forall i :: 0 <= i < |ws| && TopHit(ws[i], px, py, p).Some? && (forall j :: i < j < |ws| ==> TopHit(ws[j], px, py, p) == None) ==>
              TopChild(ws, |ws|, px, py, p) == TopHit(ws[i], px, py, p)
  {
    if forall i :: 0 <= i < |ws| ==> TopHit(ws[i], px, py, p) == None { NoChildHit(ws, |ws|, px, py, p); }
    forall i | 0 <= i < |ws| && TopHit(ws[i], px, py, p).Some? && (forall j :: i < j < |ws| ==> TopHit(ws[j], px, py, p) == None)
      ensures TopChild(ws, |ws|, px, py, p) == TopHit(ws[i], px, py, p)
    {
      LastChildHit(ws, |ws|, i, px, py, p);
    }
  }

  /**
   The topmost window, said with the numbers of the window alone: nothing where it is not drawn or
   does not reach with its border; where it does, the frontmost child that is there, but only inside
   the border; otherwise the window itself, at the point's place in its own coordinates.
   */
  lemma TopHitIs(w: Window, px: int, py: int, p: Point)
    ensures var here := w.viewable && !w.inputOnly
                        && w.x + px <= p.x < w.x + px + w.width + 2 * w.border && w.y + py <= p.y < w.y + py + w.height + 2 * w.border;
            var x, y := px + w.x + w.border, py + w.y + w.border;
            var inner := x <= p.x < x + w.width && y <= p.y < y + w.height;
            && (TopHit(w, px, py, p).Some? <==> here)
            && (here && (!inner || forall i :: 0 <= i < |w.children| ==> TopHit(w.children[i], x, y, p) == None) ==>
                  TopHit(w, px, py, p) == Some(Hit(w.id, w.colormap, Point(p.x - x, p.y - y))))
            && (here && inner ==>
                  forall i :: 0 <= i < |w.children| && TopHit(w.children[i], x, y, p).Some?
                              && (forall j :: i < j < |w.children| ==> TopHit(w.children[j], x, y, p) == None) ==>
                    TopHit(w, px, py, p) == TopHit(w.children[i], x, y, p))
  {
    var x, y := px + w.x + w.border, py + w.y + w.border;
    TopChildIs(w.children, x, y, p);
  }

  /** What mvWalkTree takes for topmost: it clips children to their parent's outer rectangle, border and all. */
  function WalkHit(w: Window, px: int, py: int, p: Point): (r: Option<Hit>)
    ensures r.Some? <==> w.Covers(px, py, p)
    decreases w
  {
    if !w.Covers(px, py, p) then None
    else
      match WalkChild(w.children, |w.children|, w.OriginX(px), w.OriginY(py), p)
      case Some(h) => Some(h)
      case None => Some(w.Own(px, py, p))
  }

  function WalkChild(ws: seq<Window>, n: nat, px: int, py: int, p: Point): (r: Option<Hit>)
    requires n <= |ws|
    ensures r.Some? <==> exists i :: 0 <= i < n && ws[i].Covers(px, py, p)
    decreases ws, n
  {
    if n == 0 then None
    else
      match WalkHit(ws[n - 1], px, py, p)
      case Some(h) => Some(h)
      case None => WalkChild(ws, n - 1, px, py, p)
  }

  /** Of the windows that are topmost from the root on, one has the point in its border and a drawn child reaching over it. */
  predicate Misled(w: Window, px: int, py: int, p: Point)
    decreases w
  {
    w.Covers(px, py, p) &&
    if w.Inner(px, py, p) then MisledChild(w.children, |w.children|, w.OriginX(px), w.OriginY(py), p)
    else exists i :: 0 <= i < |w.children| && w.children[i].Covers(w.OriginX(px), w.OriginY(py), p)
  }

  predicate MisledChild(ws: seq<Window>, n: nat, px: int, py: int, p: Point)
    requires n <= |ws|
    decreases ws, n
  {
    n > 0 && if ws[n - 1].Covers(px, py, p) then Misled(ws[n - 1], px, py, p) else MisledChild(ws, n - 1, px, py, p)
  }

  /** No window below another has the other's id. */
  predicate Unique(w: Window) {
    w.id !in ChildIds(w.children, |w.children|) && forall c :: c in w.children ==> Unique(c)
  }

  function Ids(w: Window): set<nat>
    decreases w
  {
    {w.id} + ChildIds(w.children, |w.children|)
  }

  function ChildIds(ws: seq<Window>, n: nat): set<nat>
    requires n <= |ws|
    decreases ws, n
  {
    if n == 0 then {} else ChildIds(ws, n - 1) + Ids(ws[n - 1])
  }

  lemma {:induction false} HitListed(w: Window, px: int, py: int, p: Point)
    ensures WalkHit(w, px, py, p).Some? ==> WalkHit(w, px, py, p).value.window in Ids(w)
    decreases w
  {
    ChildHitListed(w.children, |w.children|, w.OriginX(px), w.OriginY(py), p);
  }

  lemma {:induction false} ChildHitListed(ws: seq<Window>, n: nat, px: int, py: int, p: Point)
    requires n <= |ws|
    ensures WalkChild(ws, n, px, py, p).Some? ==> WalkChild(ws, n, px, py, p).value.window in ChildIds(ws, n)
    decreases ws, n
  {
    if n > 0 {
      HitListed(ws[n - 1], px, py, p);
      ChildHitListed(ws, n - 1, px, py, p);
    }
  }

  /** The walk picks the topmost window exactly where it is not misled by a border. */
  lemma {:induction false} WalkIsTopIff(w: Window, px: int, py: int, p: Point)
    ensures !Misled(w, px, py, p) ==> WalkHit(w, px, py, p) == TopHit(w, px, py, p)
    ensures Unique(w) && Misled(w, px, py, p) ==> WalkHit(w, px, py, p) != TopHit(w, px, py, p)
    decreases w
  {
    if w.Inner(px, py, p) {
      ChildIsTopIff(w.children, |w.children|, w.OriginX(px), w.OriginY(py), p);
    } else {
      ChildHitListed(w.children, |w.children|, w.OriginX(px), w.OriginY(py), p);
    }
  }

  lemma {:induction false} ChildIsTopIff(ws: seq<Window>, n: nat, px: int, py: int, p: Point)
    requires n <= |ws|
    ensures WalkChild(ws, n, px, py, p).Some? <==> TopChild(ws, n, px, py, p).Some?
    ensures !MisledChild(ws, n, px, py, p) ==> WalkChild(ws, n, px, py, p) == TopChild(ws, n, px, py, p)
    ensures MisledChild(ws, n, px, py, p) && (forall c :: c in ws ==> Unique(c)) ==> WalkChild(ws, n, px, py, p) != TopChild(ws, n, px, py, p)
    decreases ws, n
  {
    if n > 0 {
      assert ws[n - 1] in ws;
      WalkIsTopIff(ws[n - 1], px, py, p);
      ChildIsTopIff(ws, n - 1, px, py, p);
    }
  }

  lemma Childless(c: Window, px: int, py: int, p: Point)
    requires c.children == []
    ensures Ids(c) == {c.id} && Unique(c)
    ensures c.Covers(px, py, p) ==> WalkHit(c, px, py, p) == Some(c.Own(px, py, p))
  {
    assert WalkChild(c.children, 0, c.OriginX(px), c.OriginY(py), p) == None;
  }

  lemma OnlyChild(w: Window, c: Window, px: int, py: int, p: Point)
    requires w.children == [c] && c.children == [] && c.id != w.id
    requires w.Covers(px, py, p) && c.Covers(w.OriginX(px), w.OriginY(py), p) && !w.Inner(px, py, p)
    ensures Unique(w) && Misled(w, px, py, p)
    ensures TopHit(w, px, py, p) == Some(w.Own(px, py, p))
    ensures WalkHit(w, px, py, p) == Some(c.Own(w.OriginX(px), w.OriginY(py), p))
  {
    Childless(c, w.OriginX(px), w.OriginY(py), p);
    assert w.children[0] == c;
    assert ChildIds(w.children, 1) == ChildIds(w.children, 0) + Ids(c);
    assert WalkChild(w.children, 1, w.OriginX(px), w.OriginY(py), p) == WalkHit(c, w.OriginX(px), w.OriginY(py), p);
  }

  /** A 10 by 10 window with a border of 3, and a child of 4 by 4 in its top left corner: the border's corner is taken for the child. */
  lemma BorderMisleads(root: Window, child: Window, p: Point)
    requires child.Drawn() && child.id == 2 && child.x == child.y == -3 && child.width == child.height == 4 && child.border == 0
    requires root.Drawn() && root.id == 1 && root.x == root.y == 0 && root.width == root.height == 10 && root.border == 3
    requires root.children == [child] && child.children == [] && p.x == p.y == 0
    ensures Unique(root) && Misled(root, 0, 0, p)
    ensures TopHit(root, 0, 0, p) == Some(Hit(1, root.colormap, Point(-3, -3)))
    ensures WalkHit(root, 0, 0, p) == Some(Hit(2, child.colormap, Point(0, 0)))
  {
    OnlyChild(root, child, 0, 0, p);
  }

  // ---------- the list mvWalkTree makes ----------

  function Clip(w: Window, px: int, py: int, r: Rect): (c: Rect)
    ensures forall p :: c.Has(p) <==> r.Has(p) && w.Outer(px, py, p)
    ensures c.Inside(r)
  {
    var x1, y1 := Max(r.x, w.Left(px)), Max(r.y, w.Top(py));
    Rect(x1, y1, Min(r.x + r.width, w.Right(px)) - x1, Min(r.y + r.height, w.Bottom(py)) - y1)
  }

  /** A point is in the clipped rectangle if it is in the request and in the window with its border. */
  lemma ClipIs(w: Window, px: int, py: int, r: Rect, x: int, y: int)
    ensures var c := Clip(w, px, py, r);
            c.x <= x < c.x + c.width && c.y <= y < c.y + c.height <==>
              && r.x <= x < r.x + r.width && r.y <= y < r.y + r.height
              && w.x + px <= x < w.x + px + w.width + 2 * w.border && w.y + py <= y < w.y + py + w.height + 2 * w.border
  {
    assert Clip(w, px, py, r).Has(Point(x, y)) <==> r.Has(Point(x, y)) && w.Outer(px, py, Point(x, y));
  }

  function Place(w: Window, px: int, py: int, c: Rect): Placed {
    Placed(w.id, w.colormap, c.x - w.border - w.x - px, c.y - w.border - w.y - py, c)
  }

  function Walk(w: Window, px: int, py: int, r: Rect): seq<Placed>
    decreases w
  {
    var c := Clip(w, px, py, r);
    if !w.Drawn() || c.width <= 0 || c.height <= 0 then []
    else [Place(w, px, py, c)] + WalkChildren(w.children, |w.children|, px + w.x + w.border, py + w.y + w.border, c)
  }

  function WalkChildren(ws: seq<Window>, n: nat, px: int, py: int, r: Rect): seq<Placed>
    requires n <= |ws|
    decreases ws, n
  {
    if n == 0 then [] else WalkChildren(ws, n - 1, px, py, r) + Walk(ws[n - 1], px, py, r)
  }

  // ---------- reading the list front to back ----------

  function HitOf(e: Placed, p: Point): Hit {
    Hit(e.window, e.colormap, Point(e.x + p.x - e.area.x, e.y + p.y - e.area.y))
  }

  /** The frontmost entry of the list at a point. */
  function LastHit(list: seq<Placed>, p: Point): Option<Hit> {
    if list == [] then None
    else if list[|list| - 1].area.Has(p) then Some(HitOf(list[|list| - 1], p))
    else LastHit(list[..|list| - 1], p)
  }

  lemma {:induction false} LastHitAppend(a: seq<Placed>, b: seq<Placed>, p: Point)
    ensures LastHit(a + b, p) == if LastHit(b, p).Some? then LastHit(b, p) else LastHit(a, p)
    decreases |b|
  {
    if b == [] {
      assert a + b == a;
    } else {
      var b' := b[..|b| - 1];
      assert (a + b)[..|a + b| - 1] == a + b';
      LastHitAppend(a, b', p);
    }
  }

  /** The frontmost entry of the flattened tree is what the outer rectangles make topmost, wherever the request reaches. */
  lemma {:induction false} WalkLists(w: Window, px: int, py: int, r: Rect, p: Point)
    ensures LastHit(Walk(w, px, py, r), p) == if r.Has(p) then WalkHit(w, px, py, p) else None
    decreases w
  {
    var c := Clip(w, px, py, r);
    if w.Drawn() && c.width > 0 && c.height > 0 {
      var ox, oy := px + w.x + w.border, py + w.y + w.border;
      var rest := WalkChildren(w.children, |w.children|, ox, oy, c);
      var head := [Place(w, px, py, c)];
      LastHitAppend(head, rest, p);
      ChildrenList(w.children, |w.children|, ox, oy, c, p);
      assert head[..0] == [];
    }
  }

  lemma {:induction false} ChildrenList(ws: seq<Window>, n: nat, px: int, py: int, r: Rect, p: Point)
    requires n <= |ws|
    ensures LastHit(WalkChildren(ws, n, px, py, r), p) == if r.Has(p) then WalkChild(ws, n, px, py, p) else None
    decreases ws, n
  {
    if n > 0 {
      LastHitAppend(WalkChildren(ws, n - 1, px, py, r), Walk(ws[n - 1], px, py, r), p);
      ChildrenList(ws, n - 1, px, py, r, p);
      WalkLists(ws[n - 1], px, py, r, p);
    }
  }

  /** Every listed area lies in the request, so every pel index lies in the image. */
  lemma {:induction false} WalkInside(w: Window, px: int, py: int, r: Rect)
    ensures forall i :: 0 <= i < |Walk(w, px, py, r)| ==> Walk(w, px, py, r)[i].area.Inside(r)
    decreases w
  {
    var c := Clip(w, px, py, r);
    ChildrenInside(w.children, |w.children|, px + w.x + w.border, py + w.y + w.border, c);
  }

  lemma {:induction false} ChildrenInside(ws: seq<Window>, n: nat, px: int, py: int, r: Rect)
    requires n <= |ws|
    ensures forall i :: 0 <= i < |WalkChildren(ws, n, px, py, r)| ==> WalkChildren(ws, n, px, py, r)[i].area.Inside(r)
    decreases ws, n
  {
    if n > 0 {
      ChildrenInside(ws, n - 1, px, py, r);
      WalkInside(ws[n - 1], px, py, r);
    }
  }
}
