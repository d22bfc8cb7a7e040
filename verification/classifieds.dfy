/** The public project listing: the layout each listed project gets from
    its position, and the image gallery of a project's detail view. */
module Classifieds {
  import opened Wrappers
  import opened Seqs

  // ---------------------------------------------------------------------------
  // gallery

  /** The main image counts when it is set and not empty. */
  predicate HasMain(image: Option<string>) {
    image.Some? && image.value != ""
  }

  /** The other images without copies of the main image's value (when the
      main field is present at all, even empty). */
  function Others(image: Option<string>, images: Option<seq<string>>): (r: seq<string>)
    ensures forall x :: x in r <==> x in images.GetOr([]) && Some(x) != image
    ensures |r| <= |images.GetOr([])|
  {
    var all := images.GetOr([]);
    var keep := (x: string) => Some(x) != image;
    forall x ensures x in Filter(all, keep) <==> x in all && keep(x) {
      FilterMembers(all, keep, x);
    }
    Filter(all, keep)
  }

  /** `allImages`: the main image first when it is set, then the others in
      stored order, leaving out copies of the main image. */
  function AllImages(image: Option<string>, images: Option<seq<string>>): (r: seq<string>)
    ensures HasMain(image) ==> |r| >= 1 && r[0] == image.value && image.value !in r[1..]
    ensures forall x :: x in r <==> (HasMain(image) && x == image.value) || (x in images.GetOr([]) && Some(x) != image)
    ensures r == (if HasMain(image) then [image.value] else []) + Others(image, images)
  {
    (if HasMain(image) then [image.value] else []) + Others(image, images)
  }

  /** The gallery holds the main image, when set, and every stored extra
      image except the copies of the main image. */
  lemma GalleryLength(image: Option<string>, images: Option<seq<string>>)
    ensures |AllImages(image, images)| == (if HasMain(image) then 1 else 0) + |images.GetOr([])|
      - (if image.Some? then multiset(images.GetOr([]))[image.value] else 0)
  {
    var keep := (x: string) => Some(x) != image;
    if image.Some? {
      DropCopies(images.GetOr([]), keep, image.value);
    } else {
      forall i | 0 <= i < |images.GetOr([])| ensures keep(images.GetOr([])[i]) {
      }
      FilterAll(images.GetOr([]), keep);
    }
  }

  /** Filtering out one value drops exactly its copies. */
  lemma {:induction false} DropCopies(s: seq<string>, p: string -> bool, v: string)
    requires forall x :: p(x) <==> x != v
    ensures |Filter(s, p)| == |s| - multiset(s)[v]
    decreases |s|
  {
    if s != [] {
      DropCopies(s[1..], p, v);
      assert s == [s[0]] + s[1..];
      assert multiset(s)[v] == multiset(s[1..])[v] + (if s[0] == v then 1 else 0);
    }
  }

  /** A gallery shows the main image once, however often it was stored among
      the other images. */
  lemma MainShownOnce(image: Option<string>, images: Option<seq<string>>)
    requires HasMain(image)
    ensures multiset(AllImages(image, images))[image.value] == 1
  {
    var r := AllImages(image, images);
    assert r == [image.value] + r[1..];
    assert image.value !in multiset(r[1..]);
  }

  // ---------------------------------------------------------------------------
  // carousel

  /** The right arrow: on to the next image, from the last back to the
      first. */
  function Next(index: int, count: int): (r: int)
    requires 0 <= index < count
    ensures 0 <= r < count
    ensures r == (index + 1) % count
  {
    if index == count - 1 then 0 else index + 1
  }

  /** The left arrow: back to the previous image, from the first on to the
      last. */
  function Prev(index: int, count: int): (r: int)
    requires 0 <= index < count
    ensures 0 <= r < count
    ensures (r + 1) % count == index
  {
    if index == 0 then count - 1 else index - 1
  }

  /** Each arrow undoes the other. */
  lemma ArrowsUndo(index: int, count: int)
    requires 0 <= index < count
    ensures Prev(Next(index, count), count) == index
    ensures Next(Prev(index, count), count) == index
  {
  }

  datatype Arrow = Left | Right

  /** The active index after the arrows clicked, starting from the first
      image. */
  function Browse(clicks: seq<Arrow>, count: int): (r: int)
    requires count >= 1
    ensures 0 <= r < count
  {
    if clicks == [] then 0
    else
      var prev := Browse(clicks[..|clicks| - 1], count);
      match clicks[|clicks| - 1]
      case Left => Prev(prev, count)
      case Right => Next(prev, count)
  }

  /** Clicking the right arrow `k` times shows image `k`, and as many clicks
      as there are images come back to the first. */
  lemma {:induction false} RightClicks(k: nat, count: int)
    requires 1 <= count && k <= count
    ensures Browse(seq(k, _ => Right), count) == if k == count then 0 else k
  {
    if k > 0 {
      var clicks := seq(k, _ => Right);
      assert clicks[..k - 1] == seq(k - 1, _ => Right);
      RightClicks(k - 1, count);
    }
  }

  // ---------------------------------------------------------------------------
  // layout

  datatype Layout = Featured | Inverted | Standard

  /** The layout of the project at `index` in the listing. */
  function LayoutAt(index: nat): (l: Layout)
    ensures l == Featured <==> index == 0
    ensures l == Inverted <==> index > 0 && index % 4 == 0
    ensures l == Standard <==> index % 4 != 0
  {
    if index == 0 then Featured
    else if index % 4 == 0 then Inverted
    else Standard
  }

  /** The layouts of a listing of `n` projects. */
  function Layouts(n: nat): (r: seq<Layout>)
    ensures |r| == n
    ensures forall i :: 0 <= i < n ==> r[i] == LayoutAt(i)
  {
    seq(n, i requires 0 <= i < n => LayoutAt(i))
  }

  /** A non-empty listing has exactly one featured project, the first, and
      from there every fourth project is drawn differently from the
      standard ones. */
  lemma OneFeatured(n: nat)
    requires n >= 1
    ensures multiset(Layouts(n))[Featured] == 1
    ensures forall i :: 0 <= i < n - 4 ==> (Layouts(n)[i + 4] == Inverted <==> Layouts(n)[i] != Standard)
  {
    var r := Layouts(n);
    assert r == [Featured] + r[1..];
    assert Featured !in r[1..];
  }
}
