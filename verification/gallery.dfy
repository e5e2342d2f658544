/**
 The gallery's fullscreen viewer as a reducer over an immutable list of image
 URLs. The viewer keeps the selected image (null when none) and an open flag;
 closing hides the overlay at once and clears the image when a 300 ms timer
 fires, which here is an event of its own. Next and previous find the current
 image with `indexOf` and step circularly through the list.
 */
module Gallery {

  datatype Option<T> = None | Some(value: T)

  datatype Lightbox = Lightbox(
    selectedImage: Option<string>,   // `null` is None
    isOpen: bool,
    pendingClears: nat)              // started clear timers not yet fired

  /** The viewer as first rendered. */
  const Initial := Lightbox(None, false, 0)

  /** `Array.prototype.indexOf`: the first position holding `x`, or -1. */
  function IndexOf(images: seq<string>, x: string): (r: int)
    ensures -1 <= r < |images|
    ensures r == -1 <==> x !in images
    ensures r >= 0 ==> images[r] == x && forall j :: 0 <= j < r ==> images[j] != x
  {
    if |images| == 0 then -1
    else if images[0] == x then 0
    else
      var k := IndexOf(images[1..], x);
      if k == -1 then -1 else k + 1
  }

  /** JavaScript's `%`: the remainder of division truncated toward zero. It
      differs from `a` by a multiple of `n`, is smaller than `n` in magnitude
      and, when not zero, has the sign of the dividend. */
  function JsRem(a: int, n: int): (r: int)
    requires n > 0
    ensures -n < r < n && (a - r) % n == 0
    ensures r == 0 || (r < 0 <==> a < 0)
  {
    if a >= 0 then
      DivMod(a, n);
      a % n
    else
      DivMod(-a, n);
      assert a - -((-a) % n) == -(n * ((-a) / n));
      NegMultiple(n, (-a) / n);
      -((-a) % n)
  }

  /** `a` minus its remainder is a multiple of `n`. */
  lemma DivMod(a: int, n: int)
    requires n > 0
    ensures a - a % n == n * (a / n)
    ensures (a - a % n) % n == 0
  {
    MultipleMod(n, a / n);
  }

  /** A multiple of `n` leaves no remainder. */
  lemma MultipleMod(n: int, q: int)
    requires n > 0
    ensures (n * q) % n == 0
  {
    var d, r := (n * q) / n, (n * q) % n;
    assert n * q == n * d + r;
    assert r == n * (q - d);
    if q - d > 0 {
      MulAtLeast(n, q - d);
      assert false;
    } else if q - d < 0 {
      MulAtLeast(n, d - q);
      assert false;
    }
  }

  /** A positive multiple of `n` is at least `n`. */
  lemma MulAtLeast(n: int, m: int)
    requires n > 0 && m > 0
    ensures n * m >= n
  {
    assert n * m == n + n * (m - 1);
  }

  /** The negation of a multiple of `n` is one too. */
  lemma NegMultiple(n: int, q: int)
    requires n > 0
    ensures (-(n * q)) % n == 0
  {
    assert -(n * q) == n * (-q);
    MultipleMod(n, -q);
  }

  /** `selectedImage` is truthy: present and not the empty string. */
  predicate HasImage(b: Lightbox) {
    b.selectedImage.Some? && b.selectedImage.value != ""
  }

  /** `nextImage`. With no image it does nothing, whether or not the viewer
      is open. On an empty list `images[NaN]` is undefined, a falsy
      selection like null. */
  function Next(images: seq<string>, b: Lightbox): (r: Lightbox)
    ensures !HasImage(b) ==> r == b
    ensures HasImage(b) && |images| > 0 ==>
              r.selectedImage == Some(images[(IndexOf(images, b.selectedImage.value) + 1) % |images|])
    ensures HasImage(b) && |images| == 0 ==> r.selectedImage == None
    ensures r == b.(selectedImage := r.selectedImage)
  {
    if !HasImage(b) then b
    else if |images| == 0 then b.(selectedImage := None)
    else
      var i := IndexOf(images, b.selectedImage.value);
      b.(selectedImage := Some(images[JsRem(i + 1, |images|)]))
  }

  /** `prevImage`, the mirror image of `Next`. */
  function Prev(images: seq<string>, b: Lightbox): (r: Lightbox)
    ensures !HasImage(b) ==> r == b
    ensures HasImage(b) && |images| > 0 ==>
              r.selectedImage == Some(images[(IndexOf(images, b.selectedImage.value) - 1 + |images|) % |images|])
    ensures HasImage(b) && |images| == 0 ==> r.selectedImage == None
    ensures r == b.(selectedImage := r.selectedImage)
  {
    if !HasImage(b) then b
    else if |images| == 0 then b.(selectedImage := None)
    else
      var i := IndexOf(images, b.selectedImage.value);
      var k := JsRem(i - 1 + |images|, |images|);
      b.(selectedImage := Some(images[k]))
  }

  /** `openGallery` as written: shows `image`, leaving any clear timer of an
      earlier close running. */
  function OpenAsWritten(b: Lightbox, image: string): (r: Lightbox)
    ensures r.selectedImage == Some(image) && r.isOpen
    ensures r.pendingClears == b.pendingClears
  {
    b.(selectedImage := Some(image), isOpen := true)
  }

  /** `openGallery` with the clear timer of an earlier close cancelled, so it
      cannot blank the image being opened. */
  function Open(b: Lightbox, image: string): (r: Lightbox)
    ensures r.selectedImage == Some(image) && r.isOpen
    ensures r.pendingClears == 0
  {
    b.(selectedImage := Some(image), isOpen := true, pendingClears := 0)
  }

  /** `closeGallery`: hides the viewer now and starts the clear timer; the
      image stays until the timer fires. */
  function Close(b: Lightbox): (r: Lightbox)
    ensures !r.isOpen && r.selectedImage == b.selectedImage
    ensures r.pendingClears == b.pendingClears + 1
  {
    b.(isOpen := false, pendingClears := b.pendingClears + 1)
  }

  /** The clear timer's callback: the image becomes null. */
  function ClearFires(b: Lightbox): (r: Lightbox)
    ensures b.pendingClears > 0 ==>
              r.selectedImage == None && r.isOpen == b.isOpen && r.pendingClears == b.pendingClears - 1
    ensures b.pendingClears == 0 ==> r == b
  {
    if b.pendingClears > 0 then
      b.(selectedImage := None, pendingClears := b.pendingClears - 1)
    else
      b
  }

  datatype Event = Thumbnail(image: string) | CloseClick | ClearTimerFires | NextClick | PrevClick

  /** The viewer's reducer, with the corrected `Open`. */
  function Apply(images: seq<string>, b: Lightbox, e: Event): Lightbox {
    match e
    case Thumbnail(img) => Open(b, img)
    case CloseClick => Close(b)
    case ClearTimerFires => ClearFires(b)
    case NextClick => Next(images, b)
    case PrevClick => Prev(images, b)
  }

  /** The reducer as the component is written. */
  function ApplyAsWritten(images: seq<string>, b: Lightbox, e: Event): Lightbox {
    match e
    case Thumbnail(img) => OpenAsWritten(b, img)
    case _ => Apply(images, b, e)
  }

  /** What can happen in a state: thumbnails are clicked from the list while
      the overlay is hidden (it covers them and lets no click through once
      open); a timer only fires after it was started. The viewer's buttons
      stay in the page while it is hidden: the pointer cannot reach them, but
      the keyboard can, so they are offered in every state. */
  predicate Offered(images: seq<string>, b: Lightbox, e: Event) {
    match e
    case Thumbnail(img) => !b.isOpen && img in images
    case ClearTimerFires => b.pendingClears > 0
    case CloseClick => true
    case NextClick => true
    case PrevClick => true
  }

  /** An open viewer shows an image of the list, with no clear timer pending. */
  predicate Inv(images: seq<string>, b: Lightbox) {
    b.isOpen ==> b.selectedImage.Some? && b.selectedImage.value in images && b.pendingClears == 0
  }

  // ---------------------------------------------------------------------------
  // Navigation
  // ---------------------------------------------------------------------------

  predicate Distinct(images: seq<string>) {
    forall i, j :: 0 <= i < j < |images| ==> images[i] != images[j]
  }

  /** Every image URL is non-empty, so selecting one always counts as a selection. */
  predicate NonEmptyNames(images: seq<string>) {
    forall i :: 0 <= i < |images| ==> images[i] != ""
  }

  /** In a list without repetitions `indexOf` finds each position's image there. */
  lemma IndexOfDistinct(images: seq<string>, k: int)
    requires Distinct(images) && 0 <= k < |images|
    ensures IndexOf(images, images[k]) == k
  {
  }

  /** From position `k`, next shows position `(k + 1) mod n` and previous
      shows position `(k - 1 + n) mod n`. */
  lemma StepPositions(images: seq<string>, b: Lightbox, k: int)
    requires Distinct(images) && NonEmptyNames(images)
    requires 0 <= k < |images| && b.selectedImage == Some(images[k])
    ensures Next(images, b) == b.(selectedImage := Some(images[(k + 1) % |images|]))
    ensures Prev(images, b) == b.(selectedImage := Some(images[(k - 1 + |images|) % |images|]))
  {
    IndexOfDistinct(images, k);
  }

  /** One step forward from position `k` of `n`, wrapping at the end. */
  lemma SuccMod(k: int, n: int)
    requires 0 <= k < n
    ensures (k + 1) % n == if k == n - 1 then 0 else k + 1
  {
  }

  /** One step back from position `k` of `n`, wrapping at the start. */
  lemma PredMod(k: int, n: int)
    requires 0 <= k < n
    ensures (k - 1 + n) % n == if k == 0 then n - 1 else k - 1
  {
    if k == 0 {
      assert (n - 1) % n == n - 1;
    } else {
      assert k - 1 + n == (k - 1) + 1 * n;
    }
  }

  /** Previous undoes next and next undoes previous, at the ends of the list too. */
  lemma NextPrevInverse(images: seq<string>, b: Lightbox, k: int)
    requires Distinct(images) && NonEmptyNames(images)
    requires 0 <= k < |images| && b.selectedImage == Some(images[k])
    ensures Prev(images, Next(images, b)) == b
    ensures Next(images, Prev(images, b)) == b
  {
    var n := |images|;
    NextWraps(images, b, k);
    PrevWraps(images, Next(images, b), if k == n - 1 then 0 else k + 1);
    PrevWraps(images, b, k);
    NextWraps(images, Prev(images, b), if k == 0 then n - 1 else k - 1);
  }

  /** Next applied `m` times. */
  function NextN(images: seq<string>, b: Lightbox, m: nat): Lightbox
    decreases m
  {
    if m == 0 then b else NextN(images, Next(images, b), m - 1)
  }

  /** Next from position `p` shows `p + 1`, or the first image after the last. */
  lemma NextWraps(images: seq<string>, c: Lightbox, p: int)
    requires Distinct(images) && NonEmptyNames(images)
    requires 0 <= p < |images| && c.selectedImage == Some(images[p])
    ensures Next(images, c) == c.(selectedImage := Some(images[if p == |images| - 1 then 0 else p + 1]))
  {
    StepPositions(images, c, p);
    SuccMod(p, |images|);
  }

  /** Previous from position `p` shows `p - 1`, or the last image before the first. */
  lemma PrevWraps(images: seq<string>, c: Lightbox, p: int)
    requires Distinct(images) && NonEmptyNames(images)
    requires 0 <= p < |images| && c.selectedImage == Some(images[p])
    ensures Prev(images, c) == c.(selectedImage := Some(images[if p == 0 then |images| - 1 else p - 1]))
  {
    StepPositions(images, c, p);
    PredMod(p, |images|);
  }

  /** Up to `n` steps forward from position `k` land on position
      `(k + m) mod n`, written without the modulus: the selection never
      leaves the list and nothing but the selection changes. */
  lemma {:induction false} NextNPosition(images: seq<string>, b: Lightbox, k: int, m: nat)
    requires Distinct(images) && NonEmptyNames(images)
    requires 0 <= k < |images| && b.selectedImage == Some(images[k]) && m <= |images|
    ensures NextN(images, b, m)
            == b.(selectedImage := Some(images[if k + m < |images| then k + m else k + m - |images|]))
    decreases m
  {
    if m > 0 {
      var n := |images|;
      NextWraps(images, b, k);
      var k' := if k == n - 1 then 0 else k + 1;
      NextNPosition(images, Next(images, b), k', m - 1);
    }
  }

  /** However many times next is pressed, the selection stays an image of
      the list, and nothing but the selection changes. */
  lemma {:induction false} NextNStaysInList(images: seq<string>, b: Lightbox, k: int, m: nat)
    requires Distinct(images) && NonEmptyNames(images)
    requires 0 <= k < |images| && b.selectedImage == Some(images[k])
    ensures exists j :: 0 <= j < |images| && NextN(images, b, m) == b.(selectedImage := Some(images[j]))
    decreases m
  {
    if m == 0 {
      assert NextN(images, b, m) == b.(selectedImage := Some(images[k]));
    } else {
      NextWraps(images, b, k);
      var k' := if k == |images| - 1 then 0 else k + 1;
      NextNStaysInList(images, Next(images, b), k', m - 1);
    }
  }

  /** Going forward once per image comes back to the starting image. */
  lemma FullCycle(images: seq<string>, b: Lightbox, k: int)
    requires Distinct(images) && NonEmptyNames(images)
    requires 0 <= k < |images| && b.selectedImage == Some(images[k])
    ensures NextN(images, b, |images|) == b
  {
    NextNPosition(images, b, k, |images|);
  }

  /** One step short of a full cycle lands on the image before the start. */
  lemma CycleLessOne(images: seq<string>, b: Lightbox, k: int)
    requires Distinct(images) && NonEmptyNames(images)
    requires 0 <= k < |images| && b.selectedImage == Some(images[k])
    ensures NextN(images, b, |images| - 1) == Prev(images, b)
  {
    var n := |images|;
    NextNPosition(images, b, k, n - 1);
    PrevWraps(images, b, k);
    if k == 0 {
      assert NextN(images, b, n - 1) == b.(selectedImage := Some(images[n - 1]));
    } else {
      assert k + (n - 1) - n == k - 1;
      assert NextN(images, b, n - 1) == b.(selectedImage := Some(images[k - 1]));
    }
  }

  // ---------------------------------------------------------------------------
  // Opening and closing
  // ---------------------------------------------------------------------------

  /** Closing keeps the image on screen during the fade; only the timer
      clears it, and then the viewer is closed with no image. */
  lemma CloseThenClear(b: Lightbox)
    ensures var c := Close(b);
            !c.isOpen && c.selectedImage == b.selectedImage
            && var d := ClearFires(c);
               !d.isOpen && d.selectedImage == None && d.pendingClears == b.pendingClears
  {
  }

  /** Each offered event of the corrected reducer keeps the invariant. */
  lemma ApplyInv(images: seq<string>, b: Lightbox, e: Event)
    requires Inv(images, b) && Offered(images, b, e)
    ensures Inv(images, Apply(images, b, e))
  {
    match e
    case NextClick =>
      if b.isOpen {
        var k := IndexOf(images, b.selectedImage.value);
        assert 0 <= (k + 1) % |images| < |images|;
      }
    case PrevClick =>
      if b.isOpen {
        var k := IndexOf(images, b.selectedImage.value);
        assert 0 <= (k - 1 + |images|) % |images| < |images|;
      }
    case _ =>
  }

  /** Events applied one after another by the corrected reducer. */
  function Run(images: seq<string>, b: Lightbox, events: seq<Event>): Lightbox
    decreases |events|
  {
    if events == [] then b else Run(images, Apply(images, b, events[0]), events[1..])
  }

  predicate OfferedRun(images: seq<string>, b: Lightbox, events: seq<Event>)
    decreases |events|
  {
    events == [] || (Offered(images, b, events[0]) && OfferedRun(images, Apply(images, b, events[0]), events[1..]))
  }

  /** Every state reached by offered events from an invariant state keeps it. */
  lemma {:induction false} RunInv(images: seq<string>, b: Lightbox, events: seq<Event>)
    requires Inv(images, b) && OfferedRun(images, b, events)
    ensures Inv(images, Run(images, b, events))
    decreases |events|
  {
    if events != [] {
      ApplyInv(images, b, events[0]);
      RunInv(images, Apply(images, b, events[0]), events[1..]);
    }
  }

  /** From the first render, an open viewer always shows an image of the
      list and has no clear timer pending. */
  lemma ReachableInv(images: seq<string>, events: seq<Event>)
    requires OfferedRun(images, Initial, events)
    ensures Inv(images, Run(images, Initial, events))
  {
    RunInv(images, Initial, events);
  }

  /** As written, reopening within the fade lets the first close's timer
      blank the newly opened viewer: open, close, open another image, and the
      timer leaves the viewer open with no image. */
  lemma StaleClearBlanksOpenViewer()
    ensures var images := ["a.jpg", "b.jpg"];
            var b1 := ApplyAsWritten(images, Initial, Thumbnail("a.jpg"));
            var b2 := ApplyAsWritten(images, b1, CloseClick);
            var b3 := ApplyAsWritten(images, b2, Thumbnail("b.jpg"));
            var b4 := ApplyAsWritten(images, b3, ClearTimerFires);
            && Offered(images, Initial, Thumbnail("a.jpg")) && Offered(images, b1, CloseClick)
            && Offered(images, b2, Thumbnail("b.jpg")) && Offered(images, b3, ClearTimerFires)
            && b4.isOpen && b4.selectedImage == None
  {
    var images := ["a.jpg", "b.jpg"];
    assert images[0] == "a.jpg" && images[1] == "b.jpg";
  }

  /** With the corrected open, the same clicks leave no timer to fire and the
      reopened viewer keeps its image. */
  lemma ReopenKeepsImage()
    ensures var images := ["a.jpg", "b.jpg"];
            var b1 := Apply(images, Initial, Thumbnail("a.jpg"));
            var b2 := Apply(images, b1, CloseClick);
            var b3 := Apply(images, b2, Thumbnail("b.jpg"));
            && !Offered(images, b3, ClearTimerFires)
            && b3.isOpen && b3.selectedImage == Some("b.jpg")
            && ClearFires(b3) == b3
  {
  }
}
