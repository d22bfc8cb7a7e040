/** Delivery URLs of the image host: `getOptimizedUrl` inserts a
    transformation segment (size, quality, format) after the first
    "/upload/" of a hosted image's URL. */
module Cloudinary {
  import opened Wrappers
  import opened Text

  datatype Format = Auto | Jpg | Png | Webp

  function FormatName(f: Format): string {
    match f
    case Auto => "auto"
    case Jpg => "jpg"
    case Png => "png"
    case Webp => "webp"
  }

  /** The options object; a missing quality or format takes its default. */
  datatype Options = Options(
    width: Option<int>,
    height: Option<int>,
    quality: Option<int>,
    format: Option<Format>)

  const NoOptions: Options := Options(None, None, None, None)
  const DefaultQuality: int := 80
  const HostMarker: string := "cloudinary.com"
  const UploadMarker: string := "/upload/"

  /** `if (width)`: a dimension is used when given and not zero. */
  predicate Given(d: Option<int>) {
    d.Some? && d.value != 0
  }

  /** A dimension's part, when it is used. */
  function DimensionPart(prefix: string, d: Option<int>): (r: seq<string>)
    requires ',' !in prefix
    ensures |r| == if Given(d) then 1 else 0
    ensures Given(d) ==> r[0] == prefix + IntToString(d.value)
    ensures forall k :: 0 <= k < |r| ==> ',' !in r[k]
  {
    if Given(d) then [prefix + IntToString(d.value)] else []
  }

  /** `r` is `url` with `t` and a slash inserted at index `at`, everything
      else kept. */
  predicate InsertedAt(url: string, at: int, t: string, r: string) {
    && 0 <= at <= |url|
    && |r| == |url| + |t| + 1
    && r[..at] == url[..at]
    && r[at..at + |t|] == t && r[at + |t|] == '/'
    && r[at + |t| + 1..] == url[at..]
  }

  function Inserted(url: string, at: nat, t: string): (r: string)
    requires at <= |url|
    ensures InsertedAt(url, at, t, r)
  {
    url[..at] + t + "/" + url[at..]
  }

  /** A labelled part: a prefix without commas and a value. */
  function Part(prefix: string, value: string): (r: string)
    requires ',' !in prefix && ',' !in value
    ensures ',' !in r
  {
    prefix + value
  }

  lemma FormatNamePlain(f: Format)
    ensures ',' !in FormatName(f)
  {
  }

  /** The parts of the transformation, in the order they are pushed: width
      and height when given, then always quality and format. */
  function TransformParts(o: Options): (parts: seq<string>)
    ensures |parts| == (if Given(o.width) then 1 else 0) + (if Given(o.height) then 1 else 0) + 2
    ensures Given(o.width) ==> parts[0] == "w_" + IntToString(o.width.value)
    ensures Given(o.height) ==> parts[|parts| - 3] == "h_" + IntToString(o.height.value)
    ensures parts[|parts| - 2] == "q_" + IntToString(o.quality.GetOr(DefaultQuality))
    ensures parts[|parts| - 1] == "f_" + FormatName(o.format.GetOr(Auto))
    ensures forall k :: 0 <= k < |parts| ==> ',' !in parts[k]
  {
    var w := DimensionPart("w_", o.width);
    var h := DimensionPart("h_", o.height);
    FormatNamePlain(o.format.GetOr(Auto));
    var fixed := [Part("q_", IntToString(o.quality.GetOr(DefaultQuality))), Part("f_", FormatName(o.format.GetOr(Auto)))];
    assert forall k :: 0 <= k < |fixed| ==> ',' !in fixed[k];
    Concat3Plain(w, h, fixed);
    w + h + fixed
  }

  /** No part of three comma-free lists has a comma. */
  lemma Concat3Plain(a: seq<string>, b: seq<string>, c: seq<string>)
    requires forall k :: 0 <= k < |a| ==> ',' !in a[k]
    requires forall k :: 0 <= k < |b| ==> ',' !in b[k]
    requires forall k :: 0 <= k < |c| ==> ',' !in c[k]
    ensures forall k :: 0 <= k < |a + b + c| ==> ',' !in (a + b + c)[k]
  {
  }

  /** `transformations.join(',')`. */
  function TransformString(o: Options): string {
    Join(TransformParts(o), ",")
  }

  /** The transformation splits back on ',' into its parts. */
  lemma TransformStringSplits(o: Options)
    ensures SplitOn(TransformString(o), ",") == TransformParts(o)
  {
    SplitJoinChar(TransformParts(o), ',');
  }

  /** `getOptimizedUrl`: URLs of other hosts, and hosted URLs without
      "/upload/", come back unchanged; otherwise the transformation and a
      slash are inserted right after the first "/upload/". */
  function GetOptimizedUrl(url: string, o: Options): (r: string)
    ensures !Contains(url, HostMarker) ==> r == url
    ensures FindFirst(url, UploadMarker).None? ==> r == url
    ensures Contains(url, HostMarker) && FindFirst(url, UploadMarker).Some? ==>
      InsertedAt(url, FindFirst(url, UploadMarker).value + |UploadMarker|, TransformString(o), r)
  {
    if !Contains(url, HostMarker) then url
    else
      match FindFirst(url, UploadMarker)
      case None => url
      case Some(i) => Inserted(url, i + |UploadMarker|, TransformString(o))
  }

  /** Removing the inserted segment gives the original URL back, so the
      rewrite changes nothing but the transformation. */
  lemma OptimizedUrlRestores(url: string, o: Options, i: nat)
    requires Contains(url, HostMarker) && FindFirst(url, UploadMarker) == Some(i)
    ensures var r := GetOptimizedUrl(url, o); var at := i + |UploadMarker|;
      r[..at] + r[at + |TransformString(o)| + 1..] == url
  {
    var at := i + |UploadMarker|;
    assert url == url[..at] + url[at..];
  }

  /** With no options the segment is "q_80,f_auto". */
  lemma DefaultTransform()
    ensures TransformParts(NoOptions) == ["q_80", "f_auto"]
  {
    assert DigitChar(8) == '8' && DigitChar(0) == '0';
    assert NatToString(8) == "8";
    assert IntToString(80) == NatToString(80) == "80";
    assert "q_" + "80" == "q_80";
    assert FormatName(Auto) == "auto";
    assert "f_" + "auto" == "f_auto";
  }
}
