/** multivis.c as it runs: the growing window and colormap lists, and the image the windows are labelled into. */
module MultiVis {
  import opened Arith
  import opened Options
  import opened WindowTree

  class Colmap {
    const cmap: nat
    constructor (cmap: nat)
      ensures this.cmap == cmap
    {
      this.cmap := cmap;
    }
  }

  datatype Entry = Entry(at: Placed, colmap: Colmap)

  /** One pixel of the composed image; a colormap serves as its label. */
  datatype Pel = Pel(colmap: Option<Colmap>, pixel: nat) {
    predicate Labelled() { colmap.Some? }
  }

  const BLANK := Pel(None, 0)

  /** What XGetImage finds at a point of a window. */
  type Screen = (nat, Point) -> nat

  function PelOf(e: Entry, p: Point, screen: Screen): Pel {
    var h := HitOf(e.at, p);
    Pel(Some(e.colmap), screen(h.window, h.at))
  }

  /** Laying one more window under what is already labelled. */
  function Under(e: Entry, p: Point, screen: Screen, pel: Pel): Pel {
    if pel.Labelled() || !e.at.area.Has(p) then pel else PelOf(e, p, screen)
  }

  /** What the frontmost of `wins` at a point shows there. */
  function Shown(wins: seq<Entry>, p: Point, screen: Screen): Pel {
    if wins == [] then BLANK
    else if wins[|wins| - 1].at.area.Has(p) then PelOf(wins[|wins| - 1], p, screen)
    else Shown(wins[..|wins| - 1], p, screen)
  }

  lemma {:induction false} ShownUnder(e: Entry, wins: seq<Entry>, p: Point, screen: Screen)
    ensures Shown([e] + wins, p, screen) == Under(e, p, screen, Shown(wins, p, screen))
    decreases |wins|
  {
    if wins == [] {
      assert [e] + wins == [e] && [e][..0] == [];
    } else {
      assert ([e] + wins)[..|wins|] == [e] + wins[..|wins| - 1];
      ShownUnder(e, wins[..|wins| - 1], p, screen);
    }
  }

  /** What is labelled by the front of the list stays what it is when the rest is laid under it. */
  lemma {:induction false} FrontDecides(wins: seq<Entry>, i: nat, j: nat, p: Point, screen: Screen)
    requires i <= j <= |wins| && Shown(wins[j..], p, screen).Labelled()
    ensures Shown(wins[i..], p, screen) == Shown(wins[j..], p, screen)
    decreases j - i
  {
    if i < j {
      assert wins[i..] == [wins[i]] + wins[i + 1..];
      FrontDecides(wins, i + 1, j, p, screen);
      ShownUnder(wins[i], wins[i + 1..], p, screen);
    }
  }

  function Places(wins: seq<Entry>): (s: seq<Placed>)
    ensures |s| == |wins| && forall i :: 0 <= i < |wins| ==> s[i] == wins[i].at
  {
    seq(|wins|, i requires 0 <= i < |wins| => wins[i].at)
  }

  /** A pel tells the colormap and pixel of a hit, or is blank where nothing is hit. */
  predicate Tells(pel: Pel, hit: Option<Hit>, screen: Screen) {
    match hit
    case None => pel == BLANK
    case Some(h) => pel.colmap.Some? && pel.colmap.value.cmap == h.colormap && pel.pixel == screen(h.window, h.at)
  }

  /** Two hits that no pel can tell apart. */
  predicate Alike(a: Option<Hit>, b: Option<Hit>, screen: Screen) {
    match a
    case None => b == None
    case Some(h) => b.Some? && h.colormap == b.value.colormap && screen(h.window, h.at) == screen(b.value.window, b.value.at)
  }

  lemma SameLooks(pel: Pel, a: Option<Hit>, b: Option<Hit>, screen: Screen)
    requires Tells(pel, a, screen)
    ensures Tells(pel, b, screen) <==> Alike(a, b, screen)
  {
  }

  predicate Coloured(wins: seq<Entry>) {
    forall e :: e in wins ==> e.colmap.cmap == e.at.colormap
  }

  lemma {:induction false} ShownTells(wins: seq<Entry>, p: Point, screen: Screen)
    requires Coloured(wins)
    ensures Tells(Shown(wins, p, screen), LastHit(Places(wins), p), screen)
  {
    if wins != [] {
      var n := |wins| - 1;
      assert Places(wins)[..n] == Places(wins[..n]);
      assert wins[n] in wins;
      ShownTells(wins[..n], p, screen);
    }
  }

  /** How far to the front of the list fetching gets: the least index with no failing window from there on. */
  function Reach(wins: seq<Entry>, fails: nat -> bool): (n: nat)
    ensures n <= |wins|
    ensures forall i :: n <= i < |wins| ==> !fails(wins[i].at.window)
    ensures n > 0 ==> fails(wins[n - 1].at.window)
  {
    if wins == [] then 0
    else if fails(wins[|wins| - 1].at.window) then |wins|
    else Reach(wins[..|wins| - 1], fails)
  }

  // ---------- counting blank pels ----------

  function CountBlank(s: seq<Pel>): nat {
    if s == [] then 0 else CountBlank(s[..|s| - 1]) + if s[|s| - 1].Labelled() then 0 else 1
  }

  lemma {:induction false} LabelOne(s: seq<Pel>, k: nat, pel: Pel)
    requires k < |s| && !s[k].Labelled() && pel.Labelled()
    ensures CountBlank(s[k := pel]) == CountBlank(s) - 1
  {
    var n := |s| - 1;
    if k < n {
      assert s[k := pel][..n] == s[..n][k := pel];
      LabelOne(s[..n], k, pel);
    } else {
      assert s[k := pel][..n] == s[..n];
    }
  }

  lemma {:induction false} CountedOut(s: seq<Pel>)
    ensures CountBlank(s) == 0 <==> forall k :: 0 <= k < |s| ==> s[k].Labelled()
  {
    if s != [] {
      var n := |s| - 1;
      CountedOut(s[..n]);
      assert forall k :: 0 <= k < n ==> s[k] == s[..n][k];
    }
  }

  lemma {:induction false} AllBlank(s: seq<Pel>)
    requires forall k :: 0 <= k < |s| ==> s[k] == BLANK
    ensures CountBlank(s) == |s|
  {
    if s != [] { AllBlank(s[..|s| - 1]); }
  }

  // ---------- the library's state ----------

  class Capture {
    var wins: seq<Entry>
    var colMaps: seq<Colmap>
    var img: array<Pel>
    var request: Rect

    /** mvFindPel: the pel at (x, y) of the request. */
    function FindPel(x: int, y: int): int
      reads this
    {
      y * request.width + x
    }

    predicate In(x: int, y: int)
      reads this
    {
      0 <= x < request.width && 0 <= y < request.height
    }

    function At(x: int, y: int): Point
      reads this
    {
      Point(request.x + x, request.y + y)
    }

    lemma PelIn(x: int, y: int)
      requires In(x, y)
      ensures 0 <= FindPel(x, y) == y * request.width + x < request.width * request.height
    {
      MulLe(y + 1, request.height, request.width);
      MulLe(0, y, request.width);
      assert (y + 1) * request.width == y * request.width + request.width;
    }

    lemma PelsApart(x: int, y: int, x2: int, y2: int)
      requires In(x, y) && In(x2, y2) && FindPel(x, y) == FindPel(x2, y2)
      ensures x == x2 && y == y2
    {
      DivModUnique(y, request.width, x);
      DivModUnique(y2, request.width, x2);
    }

    ghost predicate ImageOk()
      reads this
    {
      request.width >= 0 && request.height >= 0 && img.Length == request.width * request.height
    }

    function Get(x: int, y: int): Pel
      requires ImageOk() && In(x, y)
      reads this, img
    {
      PelIn(x, y);
      img[FindPel(x, y)]
    }

    ghost predicate ListOk()
      reads this
    {
      && Coloured(wins)
      && (forall e :: e in wins ==> e.colmap in colMaps)
      && (forall i, j :: 0 <= i < j < |colMaps| ==> colMaps[i].cmap != colMaps[j].cmap)
    }

    constructor ()
      ensures wins == [] && colMaps == [] && ListOk()
    {
      wins, colMaps := [], [];
      img := new Pel[0];
      request := Rect(0, 0, 0, 0);
    }

    /** The one Colmap for this id, made when first asked for. */
    method FindColormap(cmap: nat) returns (c: Colmap)
      requires ListOk()
      modifies this`colMaps
      ensures ListOk() && c in colMaps && c.cmap == cmap
      ensures colMaps == old(colMaps) || (fresh(c) && colMaps == [c] + old(colMaps))
    {
      for i := 0 to |colMaps|
        invariant forall k :: 0 <= k < i ==> colMaps[k].cmap != cmap
        invariant colMaps == old(colMaps)
      {
        if colMaps[i].cmap == cmap {
          return colMaps[i];
        }
      }
      c := new Colmap(cmap);
      colMaps := [c] + colMaps;
    }

    /** What mvWalkTree does for the window itself: `c` is its part of `r`, and if there is one it is listed. */
    method Enlist(win: Window, px: int, py: int, r: Rect) returns (listed: bool, c: Rect)
      requires ListOk()
      modifies this`wins, this`colMaps
      ensures ListOk()
      ensures listed <==> win.Drawn() && Clip(win, px, py, r).width > 0 && Clip(win, px, py, r).height > 0
      ensures !listed ==> wins == old(wins)
      ensures listed ==> c == Clip(win, px, py, r) && |wins| == |old(wins)| + 1 && wins[..|old(wins)|] == old(wins)
      ensures listed ==> Places(wins) == Places(old(wins)) + [Place(win, px, py, c)]
    {
      c := r;
      if !win.viewable || win.inputOnly { return false, c; }
      var x1, y1 := Max(r.x, win.x + px), Max(r.y, win.y + py);
      var width := Min(r.x + r.width, win.x + win.width + 2 * win.border + px) - x1;
      var height := Min(r.y + r.height, win.y + win.height + 2 * win.border + py) - y1;
      if width <= 0 || height <= 0 { return false, c; }
      c := Rect(x1, y1, width, height);
      var colmap := FindColormap(win.colormap);
      var at := Placed(win.id, win.colormap, x1 - win.border - win.x - px, y1 - win.border - win.y - py, c);
      wins := wins + [Entry(at, colmap)];
      assert Places(wins) == Places(old(wins)) + [at];
      return true, c;
    }

    method WalkTree(win: Window, px: int, py: int, r: Rect)
      requires ListOk()
      modifies this`wins, this`colMaps
      ensures ListOk()
      ensures |wins| >= |old(wins)| && wins[..|old(wins)|] == old(wins)
      ensures Places(wins) == Places(old(wins)) + Walk(win, px, py, r)
      decreases win
    {
      var listed, c := Enlist(win, px, py, r);
      if !listed {
        assert Walk(win, px, py, r) == [];
        return;
      }
      var ox, oy := px + win.x + win.border, py + win.y + win.border;
      ghost var at := Place(win, px, py, c);
      for n := 0 to |win.children|
        invariant ListOk()
        invariant |wins| >= |old(wins)| && wins[..|old(wins)|] == old(wins)
        invariant Places(wins) == Places(old(wins)) + ([at] + WalkChildren(win.children, n, ox, oy, c))
      {
        WalkTree(win.children[n], ox, oy, c);
      }
    }

    method CreatImg(r: Rect)
      requires r.width >= 0 && r.height >= 0
      modifies this`img, this`request
      ensures request == r && fresh(img) && ImageOk()
      ensures forall k :: 0 <= k < img.Length ==> img[k] == BLANK
    {
      MulLe(0, r.height, r.width);
      request := r;
      img := new Pel[r.width * r.height](_ => BLANK);
    }

    /** Is (x, y) of the image before row `yi`, column `xi` of the area in reading order? */
    predicate Before(area: Rect, x: int, y: int, yi: int, xi: int)
      reads this
    {
      var row, col := request.y + y - area.y, request.x + x - area.x;
      row < yi || (row == yi && col < xi)
    }

    /** Part of a window's area has been laid under the image. */
    twostate predicate Laying(e: Entry, screen: Screen, yi: int, xi: int)
      requires old(ImageOk()) && ImageOk()
      requires old(request) == request && old(img) == img
      reads this, img
    {
      forall x, y :: In(x, y) ==>
        Get(x, y) == if Before(e.at.area, x, y, yi, xi) then Under(e, At(x, y), screen, old(Get(x, y))) else old(Get(x, y))
    }

    /** One pixel of a fetched image. */
    method LabelPel(e: Entry, screen: Screen, yi: int, xi: int, n0: int) returns (n: int)
      requires ImageOk() && e.at.area.Inside(request) && 0 <= yi < e.at.area.height && 0 <= xi < e.at.area.width
      requires n0 == CountBlank(img[..])
      modifies img
      ensures n == CountBlank(img[..])
      ensures forall x, y :: In(x, y) ==>
                Get(x, y) == if x == xi + e.at.area.x - request.x && y == yi + e.at.area.y - request.y
                             then Under(e, At(x, y), screen, old(Get(x, y))) else old(Get(x, y))
    {
      n := n0;
      var x0, y0 := xi + e.at.area.x - request.x, yi + e.at.area.y - request.y;
      PelIn(x0, y0);
      var k := FindPel(x0, y0);
      if !img[k].Labelled() {
        var pel := Pel(Some(e.colmap), screen(e.at.window, Point(e.at.x + xi, e.at.y + yi)));
        LabelOne(img[..], k, pel);
        ghost var was := img[..];
        img[k] := pel;
        assert img[..] == was[k := pel];
        n := n - 1;
      }
      forall x, y | In(x, y)
        ensures Get(x, y) == if x == x0 && y == y0 then Under(e, At(x, y), screen, old(Get(x, y))) else old(Get(x, y))
      {
        PelIn(x, y);
        if FindPel(x, y) == k { PelsApart(x, y, x0, y0); }
      }
    }

    /** The two loops over a fetched image. */
    method LabelWindow(e: Entry, screen: Screen, n0: int) returns (n: int)
      requires ImageOk() && e.at.area.Inside(request) && n0 == CountBlank(img[..])
      modifies img
      ensures n == CountBlank(img[..])
      ensures forall x, y :: In(x, y) ==> Get(x, y) == Under(e, At(x, y), screen, old(Get(x, y)))
    {
      n := n0;
      var yi := 0;
      while yi < e.at.area.height
        invariant 0 <= yi && (yi <= e.at.area.height || yi == 0)
        invariant n == CountBlank(img[..])
        invariant Laying(e, screen, yi, 0)
      {
        var xi := 0;
        while xi < e.at.area.width
          invariant 0 <= xi && (xi <= e.at.area.width || xi == 0)
          invariant n == CountBlank(img[..])
          invariant Laying(e, screen, yi, xi)
        {
          n := LabelPel(e, screen, yi, xi, n);
          xi := xi + 1;
        }
        yi := yi + 1;
      }
    }

    ghost predicate Shows(front: seq<Entry>, screen: Screen)
      requires ImageOk()
      reads this, img
    {
      forall x, y :: In(x, y) ==> Get(x, y) == Shown(front, At(x, y), screen)
    }

    lemma NoneLeft(i: nat, j: nat, screen: Screen)
      requires ImageOk() && i <= j <= |wins| && Shows(wins[j..], screen) && CountBlank(img[..]) == 0
      ensures Shows(wins[i..], screen)
    {
      CountedOut(img[..]);
      forall x, y | In(x, y) ensures Get(x, y) == Shown(wins[i..], At(x, y), screen) {
        PelIn(x, y);
        assert img[..][FindPel(x, y)] == Get(x, y);
        FrontDecides(wins, i, j, At(x, y), screen);
      }
    }

    lemma NothingYet(screen: Screen)
      requires ImageOk() && forall k :: 0 <= k < img.Length ==> img[k] == BLANK
      ensures Shows([], screen) && CountBlank(img[..]) == img.Length
    {
      AllBlank(img[..]);
      forall x, y | In(x, y) ensures Get(x, y) == Shown([], At(x, y), screen) { PelIn(x, y); }
    }

    method DoWindow(i: nat, screen: Screen, n0: int) returns (n: int)
      requires ImageOk() && i < |wins| && wins[i].at.area.Inside(request)
      requires n0 == CountBlank(img[..]) && Shows(wins[i + 1..], screen)
      modifies img
      ensures n == CountBlank(img[..]) && Shows(wins[i..], screen)
    {
      n := LabelWindow(wins[i], screen, n0);
      assert wins[i..] == [wins[i]] + wins[i + 1..];
      forall x, y | In(x, y) ensures Get(x, y) == Shown(wins[i..], At(x, y), screen) {
        ShownUnder(wins[i], wins[i + 1..], At(x, y), screen);
      }
    }

    /** Front to back until every pel is labelled or a fetch fails; stopping early loses nothing. */
    method DoWindowsFrontToBack(screen: Screen, fails: nat -> bool)
      requires ImageOk() && (forall e :: e in wins ==> e.at.area.Inside(request))
      requires forall k :: 0 <= k < img.Length ==> img[k] == BLANK
      modifies img
      ensures Shows(wins[Reach(wins, fails)..], screen)
    {
      var nPixelsUnLabeled := request.width * request.height;
      NothingYet(screen);
      var i := |wins| - 1;
      while nPixelsUnLabeled > 0 && i >= 0
        invariant -1 <= i < |wins|
        invariant nPixelsUnLabeled == CountBlank(img[..])
        invariant Shows(wins[i + 1..], screen)
        invariant forall j :: i < j < |wins| ==> !fails(wins[j].at.window)
        decreases i
      {
        if fails(wins[i].at.window) {
          assert Reach(wins, fails) == i + 1;
          return;
        }
        nPixelsUnLabeled := DoWindow(i, screen, nPixelsUnLabeled);
        i := i - 1;
      }
      assert Reach(wins, fails) <= i + 1;
      if i >= 0 { NoneLeft(Reach(wins, fails), i + 1, screen); }
    }

    /**
     A pel tells the window the walk takes for topmost, and the one that is topmost exactly if no
     border misled the walk, or if the two look the same.
     */
    ghost predicate PelRight(root: Window, screen: Screen, x: int, y: int)
      requires ImageOk() && In(x, y)
      reads this, img
    {
      var walk, top := WalkHit(root, 0, 0, At(x, y)), TopHit(root, 0, 0, At(x, y));
      && Tells(Get(x, y), walk, screen)
      && (Tells(Get(x, y), top, screen) <==> !Misled(root, 0, 0, At(x, y)) || Alike(walk, top, screen))
    }

    /**
     In other words: a labelled pel has the colormap, and the pixel at its place, of the window the
     walk takes for topmost at the request's corner plus (x, y); an unlabelled one is blank because
     there is no window.
     */
    lemma PelMeans(root: Window, screen: Screen, x: int, y: int)
      requires ImageOk() && In(x, y) && PelRight(root, screen, x, y)
      ensures var hit, pel := WalkHit(root, 0, 0, Point(request.x + x, request.y + y)), Get(x, y);
              && (pel.colmap.Some? <==> hit.Some?)
              && (hit.Some? ==> pel.colmap.value.cmap == hit.value.colormap && pel.pixel == screen(hit.value.window, hit.value.at))
              && (hit == None ==> pel.pixel == 0)
      ensures var hit, pel := TopHit(root, 0, 0, Point(request.x + x, request.y + y)), Get(x, y);
              !Misled(root, 0, 0, Point(request.x + x, request.y + y)) && hit.Some? ==>
                pel.colmap.Some? && pel.colmap.value.cmap == hit.value.colormap && pel.pixel == screen(hit.value.window, hit.value.at)
    {
    }

    lemma PelTells(root: Window, n: nat, screen: Screen, x: int, y: int)
      requires ImageOk() && n <= |wins| && Shows(wins[n..], screen)
      requires Coloured(wins) && Places(wins) == Walk(root, 0, 0, request)
      requires In(x, y) && (n == 0 || Get(x, y).Labelled())
      ensures PelRight(root, screen, x, y)
    {
      assert wins[0..] == wins;
      if n > 0 { FrontDecides(wins, 0, n, At(x, y), screen); }
      WalkLists(root, 0, 0, request, At(x, y));
      ShownTells(wins, At(x, y), screen);
      WalkIsTopIff(root, 0, 0, At(x, y));
      SameLooks(Get(x, y), WalkHit(root, 0, 0, At(x, y)), TopHit(root, 0, 0, At(x, y)), screen);
    }

    /**
     The walk, the cleared image and the labelling together: each pel tells the window the walk
     takes for topmost, which is the topmost one except where a border misleads.
     */
    method Magnify(root: Window, r: Rect, screen: Screen, fails: nat -> bool)
      requires wins == [] && colMaps == [] && r.width >= 0 && r.height >= 0
      modifies this
      ensures ImageOk() && request == r && fresh(img)
      ensures forall x, y :: In(x, y) && Get(x, y).Labelled() ==> PelRight(root, screen, x, y)
      ensures (forall e :: e in Walk(root, 0, 0, r) ==> !fails(e.window)) ==>
                forall x, y :: In(x, y) ==> PelRight(root, screen, x, y)
    {
      WalkTree(root, 0, 0, r);
      ghost var plan := Walk(root, 0, 0, r);
      assert Places(wins) == plan;
      WalkInside(root, 0, 0, r);
      forall e | e in wins ensures e.at.area.Inside(r) {
        var i :| 0 <= i < |wins| && wins[i] == e;
        assert plan[i] == e.at;
      }
      CreatImg(r);
      DoWindowsFrontToBack(screen, fails);
      var n := Reach(wins, fails);
      assert n > 0 ==> plan[n - 1] in plan;
      forall x, y | In(x, y) && (n == 0 || Get(x, y).Labelled())
        ensures PelRight(root, screen, x, y)
      {
        PelTells(root, n, screen, x, y);
      }
    }
  }
}
