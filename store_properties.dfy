/** What the registry's operations do, stated on the specification functions the methods of
    `ImageStore.Model` are proved against: in-place transforms, the frame of every operation,
    complete sources, flipping back, and saving then loading. */
module StoreProperties {
  import opened Pixels
  import opened Transforms
  import opened PlainPpm
  import opened ImageStore

  /** The source of an operation that gets past the size checks. */
  ghost predicate Registered(imgs: map<string, Grid>, name: string) {
    name in imgs && |imgs[name]| > 0
  }

  /** The registry after a successful size check: only `dest` changes, and it gets a grid of
      the source's size. */
  ghost predicate OnlyDestChanged(imgs: map<string, Grid>, o: Outcome, name: string, dest: string)
    requires Registered(imgs, name)
  {
    o.images.Keys == imgs.Keys + {dest} &&
    (forall n :: n in imgs && n != dest ==> o.images[n] == imgs[n]) &&
    |o.images[dest]| == |imgs[name]| && IsRect(o.images[dest]) && Width(o.images[dest]) == Width(imgs[name])
  }

  // ---------------------------------------------------------------------------
  // Errors before the put, and the frame of every transform

  /** The size check comes first: a missing or empty source changes nothing. */
  lemma {:induction false} UnregisteredChangesNothing(op: PixelOp, k: seq<seq<real>>, horizontal: bool,
                                                      imgs: map<string, Grid>, name: string, dest: string)
    requires ValidOp(op) && IsKernel(k) && StoreValid(imgs) && !Registered(imgs, name)
    ensures var e := Some(if name in imgs then IndexOutOfBounds else NullPointer);
      Pixelwise(op, imgs, name, dest) == Outcome(imgs, e) &&
      Filtered(k, imgs, name, dest) == Outcome(imgs, e) &&
      Flipped(horizontal, imgs, name, dest) == Outcome(imgs, e)
  {
    var e := DimsError(imgs, name);
    assert e.Some? && e.value == (if name in imgs then IndexOutOfBounds else NullPointer);
  }

  lemma {:induction false} PixelwiseFrame(op: PixelOp, imgs: map<string, Grid>, name: string, dest: string)
    requires ValidOp(op) && StoreValid(imgs) && Registered(imgs, name)
    ensures OnlyDestChanged(imgs, Pixelwise(op, imgs, name, dest), name, dest)
  {
    var src := ReadBack(imgs, name, dest);
    MapGridWellFormed(op, src);
  }

  lemma {:induction false} FilteredFrame(k: seq<seq<real>>, imgs: map<string, Grid>, name: string, dest: string)
    requires IsKernel(k) && StoreValid(imgs) && Registered(imgs, name)
    ensures OnlyDestChanged(imgs, Filtered(k, imgs, name, dest), name, dest)
  {
    var src := ReadBack(imgs, name, dest);
    assert IsRect(Convolve(k, src));
  }

  lemma {:induction false} FlippedFrame(horizontal: bool, imgs: map<string, Grid>, name: string, dest: string)
    requires StoreValid(imgs) && Registered(imgs, name)
    ensures OnlyDestChanged(imgs, Flipped(horizontal, imgs, name, dest), name, dest)
    ensures Flipped(horizontal, imgs, name, dest).error == None
  {
    var src := ReadBack(imgs, name, dest);
    assert IsRect(FlipH(src)) && IsRect(FlipV(src));
  }

  /** What getSize and existingID observe after an operation that put `dest`: the name is
      registered, and the number of names grew by one exactly when it was new. */
  ghost predicate RegistersDest(imgs: map<string, Grid>, o: Outcome, dest: string) {
    dest in o.images && |o.images.Keys| == |imgs.Keys| + (if dest in imgs then 0 else 1)
  }

  /** Every transform that gets past the size checks registers its destination. */
  lemma {:induction false} TransformsRegisterDest(op: PixelOp, k: seq<seq<real>>, horizontal: bool,
                                                  imgs: map<string, Grid>, name: string, dest: string)
    requires ValidOp(op) && IsKernel(k) && StoreValid(imgs) && Registered(imgs, name)
    ensures RegistersDest(imgs, Pixelwise(op, imgs, name, dest), dest)
    ensures RegistersDest(imgs, Filtered(k, imgs, name, dest), dest)
    ensures RegistersDest(imgs, Flipped(horizontal, imgs, name, dest), dest)
  {
    var src := ReadBack(imgs, name, dest);
    PutSize(imgs, dest, MapGrid(op, src));
    PutSize(imgs, dest, Convolve(k, src));
    PutSize(imgs, dest, if horizontal then FlipH(src) else FlipV(src));
  }

  // ---------------------------------------------------------------------------
  // A destination equal to the source

  /** Transforming an image into itself reads the all-null grid just put under its name: the
      first cell throws and the image is left all null. */
  lemma {:induction false} PixelwiseInPlace(op: PixelOp, imgs: map<string, Grid>, name: string)
    requires ValidOp(op) && StoreValid(imgs) && Registered(imgs, name) && Width(imgs[name]) > 0
    ensures Pixelwise(op, imgs, name, name) ==
      Outcome(imgs[name := NullGrid(|imgs[name]|, Width(imgs[name]))], Some(NullPointer))
  {
    var g := NullGrid(|imgs[name]|, Width(imgs[name]));
    assert ReadBack(imgs, name, name) == g;
    assert InGrid(g, 0, 0);
    MapGridStopsAtNull(op, g, 0, 0);
    SameGrid(MapGrid(op, g), g);
  }

  /** The same for filter with a non-empty kernel: the centre of the first window is cell
      (0, 0), which is null. */
  lemma {:induction false} FilterInPlace(k: seq<seq<real>>, imgs: map<string, Grid>, name: string)
    requires IsKernel(k) && |k| > 0 && StoreValid(imgs) && Registered(imgs, name) && Width(imgs[name]) > 0
    ensures Filtered(k, imgs, name, name) ==
      Outcome(imgs[name := NullGrid(|imgs[name]|, Width(imgs[name]))], Some(NullPointer))
  {
    var g := NullGrid(|imgs[name]|, Width(imgs[name]));
    assert ReadBack(imgs, name, name) == g;
    var mid := |k| / 2;
    assert SrcRow(k, 0, mid) == 0;
    assert InImage(g, SrcRow(k, 0, mid), SrcRow(k, 0, mid));
    assert !WindowFilled(k, g, 0, 0);
    assert !AllWindowsFilled(k, g) by { assert InImage(g, 0, 0); }
    ConvolveUpTo(k, g, 0, 0);
    SameGrid(Convolve(k, g), g);
  }

  /** Flipping an image into itself copies the all-null grid: no error, every cell null. */
  lemma {:induction false} FlipInPlace(horizontal: bool, imgs: map<string, Grid>, name: string)
    requires StoreValid(imgs) && Registered(imgs, name)
    ensures Flipped(horizontal, imgs, name, name) ==
      Outcome(imgs[name := NullGrid(|imgs[name]|, Width(imgs[name]))], None)
  {
    var g := NullGrid(|imgs[name]|, Width(imgs[name]));
    assert ReadBack(imgs, name, name) == g;
    SameGrid(FlipH(g), g);
    SameGrid(FlipV(g), g);
  }

  // ---------------------------------------------------------------------------
  // A complete source under another name

  /** With no null cell in the source, a per-pixel transform succeeds and every destination
      cell is the transformed source colour. */
  lemma {:induction false} PixelwiseOfComplete(op: PixelOp, imgs: map<string, Grid>, name: string, dest: string)
    requires ValidOp(op) && StoreValid(imgs) && Registered(imgs, name) && dest != name
    requires AllFilled(imgs[name])
    ensures var o := Pixelwise(op, imgs, name, dest);
      o.error == None && dest in o.images && AllFilled(o.images[dest]) &&
      forall i, j :: InGrid(imgs[name], i, j) ==> o.images[dest][i][j] == Some(ApplyOp(op, imgs[name][i][j].value))
  {
    MapGridFilled(op, imgs[name]);
  }

  /** The same for filter: every window of a complete grid is filled. */
  lemma {:induction false} FilterOfComplete(k: seq<seq<real>>, imgs: map<string, Grid>, name: string, dest: string)
    requires IsKernel(k) && StoreValid(imgs) && Registered(imgs, name) && dest != name
    requires AllFilled(imgs[name])
    ensures var o := Filtered(k, imgs, name, dest);
      o.error == None && dest in o.images &&
      forall i, j :: InImage(imgs[name], i, j) ==> o.images[dest][i][j] == Some(ConvPixel(k, imgs[name], i, j))
  {
    var g := imgs[name];
    forall a, b | InImage(g, a, b) ensures WindowFilled(k, g, a, b) {
      FilledWindows(k, g, a, b);
    }
    ConvolveUpTo(k, g, |g|, 0);
  }

  /** The identity colour matrix copies a complete image. */
  lemma {:induction false} IdentityTransformCopies(imgs: map<string, Grid>, name: string, dest: string)
    requires StoreValid(imgs) && Registered(imgs, name) && dest != name && AllFilled(imgs[name])
    ensures Pixelwise(TransformOp(Identity3), imgs, name, dest) == Outcome(imgs[dest := imgs[name]], None)
  {
    MapGridIdentity(imgs[name]);
  }

  /** The 1x1 unit kernel copies a complete image. */
  lemma {:induction false} UnitFilterCopies(imgs: map<string, Grid>, name: string, dest: string)
    requires StoreValid(imgs) && Registered(imgs, name) && dest != name && AllFilled(imgs[name])
    ensures Filtered(Unit, imgs, name, dest) == Outcome(imgs[dest := imgs[name]], None)
  {
    var g := imgs[name];
    ConvolveUnit(g);
    forall a, b | InImage(g, a, b) ensures WindowFilled(Unit, g, a, b) {
      FilledWindows(Unit, g, a, b);
    }
  }

  /** Flipping an image under a new name and flipping that back the same way gives the
      original grid. */
  lemma {:induction false} FlipBack(horizontal: bool, imgs: map<string, Grid>, name: string, mid: string, dest: string)
    requires StoreValid(imgs) && Registered(imgs, name) && mid != name && dest != mid
    ensures var first := Flipped(horizontal, imgs, name, mid);
      Registered(first.images, mid) &&
      Flipped(horizontal, first.images, mid, dest) == Outcome(first.images[dest := imgs[name]], None)
  {
    var g := imgs[name];
    FlipHInvolution(g);
    FlipVInvolution(g);
  }

  // ---------------------------------------------------------------------------
  // saveImage then loadImage

  /** The text saveImage writes for a complete image loads back, under any name, as that
      image, with no warning and no error. */
  lemma {:induction false} SaveThenLoad(imgs: map<string, Grid>, name: string, other: string)
    requires StoreValid(imgs) && Registered(imgs, name)
    requires AllFilled(imgs[name]) && |imgs[name]| <= IntMax && Width(imgs[name]) <= IntMax
    ensures !DecodePlain(EncodePlain(imgs[name])).warned
    ensures LoadOutcome(EncodePlain(imgs[name]), imgs, other) == Outcome(imgs[other := imgs[name]], None)
  {
    RoundTrip(imgs[name]);
  }
}
